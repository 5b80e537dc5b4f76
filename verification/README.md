# simple_shell, modelled in Dafny

A model of the command-line logic of `simple_shell`, a minimal interactive
shell written in C (`shell.c`). The shell prints a prompt, reads a line,
cuts it at the first newline, splits it into words on the space character
with `strtok`, runs the two builtins `exit` and `env`, and otherwise looks
the first word up on `PATH` and runs the program it finds.

The model keeps the string logic and replaces the operating system by
parameters:

- `getline`'s result is an `Option<string>`, where `None` means end of input.
- `getenv("PATH")` is an `Option<string>`, where `None` means unset.
- `access(_, X_OK)` is a `set<string>` of the paths it accepts.
- Running a program is recorded as a `Launched(path, argv)` effect instead of
  being carried out.

Modules, one per component of `shell.c`:

- `Wrappers`: `Option`, which stands in for NULL-or-pointer results.
- `LineReader`: `read_command`. It models the `strcspn` newline cut and
  end of input. The line is treated as a C string, so it also ends at the
  first NUL byte that `getline` delivers.
- `Tokenizer`: `strtok` splitting (`Split`, with one-call-at-a-time
  `NextToken`) and the `argv` filling loop (`Tokenize`).
- `Builtins`: `builtin_handler`.
- `PathSearch`: `find_command`, as a function (`FindCommand`) and as the
  source's `strtok` loop (`FindCommandScan`), proved equal.
- `Shell`: `execute_command`, one iteration of `main` (`Step`), and a whole
  run over a list of input lines (`Session`).

Points where the code behaves differently from what one might expect of a
shell, all modelled as the code does them:

- Only the space character separates words. Tabs stay inside words.
- Empty `PATH` entries are dropped by `strtok`. They are not searched as
  empty directory names.
- An unset `PATH` gives "not found" even for a command containing '/',
  because that test comes before the '/' test.
- A NUL byte inside a line ends it. `strcspn` and `strlen` stop there, so
  "ls\0x" runs `ls`, and a line starting with NUL counts as empty.
- A line of only spaces is not skipped. It passes the length test in
  `main`, and then `builtin_handler` compares a NULL `argv[0]`, which is
  undefined behaviour in C. The model does not invent a result for such a
  line. `Shell.Runnable` (at least one word) is a precondition of
  `ExecuteCommand`, and `Shell.Admissible` is a precondition of `Step`.
  `Session` asks it only of the lines up to the first `exit`, which are the
  lines the loop reads.

## Model

| member | source | states |
|---|---|---|
| LineReader.StripNewline | shell.c:67 | the C string left after the cut is a prefix of the line with no newline and no NUL; if it is shorter than the line, a newline or NUL follows it; a line with neither comes back unchanged |
| LineReader.Strcspn | shell.c:67 | the index computed by the loop is the length of the longest prefix free of newline and NUL: neither occurs before it, and one of them is at it unless it is the end of the line |
| LineReader.ReadCommand | shell.c:53-70 | end of input (getline returning -1) gives NULL, and only end of input does; otherwise the result is the line cut at its first newline or NUL |
| LineReader.StripNewlineUnique | shell.c:67 | any prefix with the three properties of the cut is the cut, so the characterisation is complete |
| LineReader.StripNewlineIdempotent | shell.c:67 | cutting an already cut line changes nothing |
| LineReader.NulEndsTheLine | shell.c:59-67 | bytes after an embedded NUL are invisible: "ls\0x\n" reads as "ls" |
| Tokenizer.Split | shell.c:84-86 | every word of a line is non-empty and contains no delimiter |
| Tokenizer.NextToken | shell.c:84-86 | one strtok call from a saved position: NULL exactly when only delimiters are left; otherwise the word returned is the first word of the rest, and the rest after the resume point holds exactly the remaining words |
| Tokenizer.Tokenize | shell.c:78-86 | the argv filling loop stores exactly the words of the line, in order; the line has at most 1023 words, so the NULL written after the last word stays inside the 1024-slot array |
| Tokenizer.SplitToken | shell.c:84-86 | a non-empty string without the delimiter is one word |
| Tokenizer.SplitDelimiters | shell.c:84-86 | a line made only of delimiters has zero words |
| Tokenizer.SplitAround | shell.c:84-86 | a delimiter separates: the words of x, a delimiter, then y are the words of x followed by the words of y; no word spans a delimiter, and leading, trailing and repeated delimiters contribute nothing |
| Tokenizer.SplitJoin | shell.c:84-86 | joining words with a single delimiter and splitting again gives the same words in the same order |
| Tokenizer.SplitKeepsContent | shell.c:84-86 | the words written one after another are exactly the line's characters other than the delimiter, in order |
| Tokenizer.TabIsNotADelimiter | shell.c:84 | a tab does not split a word |
| Builtins.Dispatch | shell.c:125-142 | the first word alone decides: "exit" ends the shell with status 0, "env" is handled, and anything else is not handled; each outcome holds exactly when its condition holds |
| Builtins.ReturnValue | shell.c:138-141 | the handler returns 1 exactly for a handled builtin and 0 exactly for an unhandled command |
| Builtins.DispatchReadsFirstWordOnly | shell.c:127-129 | two argument vectors with the same first word get the same outcome, whatever follows |
| PathSearch.SearchPath | shell.c:167-189 | the directories searched are non-empty and contain no ':' |
| PathSearch.FirstAccepted | shell.c:170-194 | the result is not-found exactly when no candidate dir/command is accepted; otherwise it is the candidate of the earliest accepted directory, and no earlier candidate is accepted |
| PathSearch.FirstMatchIsReturned | shell.c:170-186 | conversely, when directory i is accepted and no earlier directory is, the search returns directory i's candidate |
| PathSearch.FindCommand | shell.c:150-195 | an unset PATH or an empty command gives not-found; a command containing '/' is returned exactly when it is executable; otherwise the result is the candidate of the first accepted PATH entry, and not-found exactly when none is accepted; every result is executable |
| PathSearch.FindCommandScan | shell.c:150-195 | the strtok loop over a copy of PATH returns the same result as the search rule above |
| PathSearch.FirstAcceptedAppend | shell.c:170-194 | searching a+b returns the result from a if a has a match, and otherwise the result from b |
| PathSearch.LaterEntriesIgnored | shell.c:182-186 | once a PATH finds the command, any entries appended after it change nothing |
| PathSearch.EarlierMissesIgnored | shell.c:170-190 | entries in front that do not contain the command do not affect the result |
| PathSearch.DoubledSeparatorIgnored | shell.c:168-189 | "::" in PATH resolves like ":"; an empty entry is not a directory |
| PathSearch.LeadingSeparatorIgnored | shell.c:168 | a leading ':' in PATH changes nothing |
| PathSearch.TrailingSeparatorIgnored | shell.c:189 | a trailing ':' in PATH changes nothing |
| PathSearch.DirectPathIgnoresSearchPath | shell.c:159-165 | a command containing '/' resolves the same under every set PATH value |
| PathSearch.FirstMatchWinsExample | shell.c:180-185 | with PATH=/bin:/usr/bin and ls executable in both, /bin/ls is chosen |
| Shell.ExecuteCommand | shell.c:76-97 | a line's effect is exit with status 0 exactly when its first word is "exit", and an env listing exactly when it is "env", which is exactly when the handler's return value is non-zero and the line returns early; otherwise it is command-not-found exactly when resolution fails; a launch runs a resolved, executable path with the full word list as argv, and runs a word containing '/' as typed |
| Shell.Step | shell.c:20-35 | end of input, and only end of input, ends the loop; an empty line after the newline cut, and only such a line, goes straight back to the prompt; any other line is executed |
| Shell.Session | shell.c:16-38 | a run yields one effect per line read, each the step of that line; it stops at the first exit or at end of input, always with status 0; a final exit is the step of the line at that position, which starts with the word exit; end of input is reached only after every line |
| Shell.StepExitsOn | shell.c:125-128 | a processable line ends the shell exactly when its first word is exit |
| Shell.ExitIgnoresQueuedInput | shell.c:127-128 | once a run ends with exit, the input still queued behind it, whatever it is, has no effect |
| Shell.EmptyLineSkipsDispatch | shell.c:31-32 | an empty line, or one that starts with a newline or a NUL, never reaches the builtins or the path search, whatever PATH and the executable set are |
| Shell.ExitWithArguments | shell.c:127-128 | "exit" followed by any words ends the shell with status 0 |

## Left out

- Prompt printing, the `env` listing, the "command not found" message and the
  newline at end of input (shell.c:27, 45, 95, 133-137). These are output.
  `env` appears only as the `EnvListed` effect.
- fork, execve, wait and their failure paths (shell.c:99-114). These are
  process control. A launch is recorded as `Launched(path, argv)`. The child's
  empty environment and its discarded exit status are not modelled.
- The `environ` and `getenv` globals (shell.c:131, 152). They are parameters.
- malloc and strdup failures and the frees (shell.c:115-116, 167, 173-178,
  184, 188, 192). An allocation failure inside `find_command` would give
  not-found. The model assumes allocation succeeds.
- Lines of only spaces and lines of 1024 or more words. The source's
  behaviour on them is undefined: a NULL `argv[0]` is compared, or the write
  goes past the `argv` array. `Shell.Runnable` keeps them out of
  `ExecuteCommand`, `Step` and the lines `Session` reads.
- Shell.Session: launched programs are assumed not to read the shell's
  input and not to change which paths `access` accepts. In the source a
  child inherits standard input (shell.c:99-114) and may consume queued
  lines, and `access` is asked afresh on every line (shell.c:161, 182).
  The model feeds every queued line to the shell and uses one executable
  set for the whole run, because the children's behaviour is outside it.
