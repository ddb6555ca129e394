# The command-security validator of an autonomous coding agent, in Dafny

An autonomous coding agent runs bash commands.
Each command string goes through `SecurityValidator.validate_command`
(`security.py`) first. The function does four things:

1. It cuts the string at `;`, using `re.split` with quote look-arounds.
2. It tokenises each piece with `shlex.split`.
3. It walks the tokens with a small state machine to find the command names.
4. It checks every name against `ALLOWED_COMMANDS`.

Names in `COMMANDS_NEEDING_EXTRA_VALIDATION` also get an argument check
(`_validate_pkill`, `_validate_chmod`, `_validate_init_script`,
`_validate_shell_script`, `_validate_network_command`). The first refusal
decides the answer.

This project models that code as pure functions and proves what it does.

- `policy.dfy`: the allowlist and the deep-check list. Also the shape of an
  answer: allowed, refused with one reason per message of the source, or an
  exception escaping the call.
- `text.dfy`: `str.isspace`, `strip`, `split()[0]`, `startswith`,
  `endswith`, `in` on strings and `os.path.basename`.
- `shlex.dfy`: `shlex.split` in its default POSIX mode, as a
  character-by-character scanner like `shlex.read_token`.
- `segments.dfy`: the `;` cut.
- `extractor.dfy`: `_extract_commands`.
- `deep_checks.dfy`: the five argument checks. Each is split into the
  tokenisation and a verdict on the tokens.
- `validator.dfy`: `validate_command` as written.
- `scoped_validator.dfy`: `validate_command` with its two defects repaired
  (see Findings). It is used to prove the safety property the deep checks
  are meant to give.
- `scenarios.dfy`: concrete command strings, read and judged by both
  validators. Some are ordinary agent commands; the others show the
  defects.

Some behaviour of the code is easy to misread. The model follows the
code in each case:

- The code cuts the string into segments only at `;` (security.py:117).
  It recognises `|`, `||`, `&&` and `&` only as whole tokens of a segment,
  so `a&&b` is one word. An operator only makes the state machine expect
  a new command (security.py:138-140).
- Each deep check is called with the whole command string
  (security.py:90-106). It does not get the segment or the invocation the
  name came from.
- The first command word after each operator is collected, and each
  name is checked against the allowlist on its own (security.py:83-85).
- The `pkill` refusal message lists the allowed process names, not the
  refused target (security.py:196).
- A `;` right after a quote is not a cut (security.py:117), and `shlex`
  then glues the quoted text, the `;` and the next word into one token
  (security.py:125). In `echo "x";rm -rf /` the only command found is
  `echo`, so the string is allowed although a shell would run `rm`. The
  repaired validator reads commands the same way, so it allows this too.
  Its safety result covers the invocations the extractor finds, not every
  command a shell would run.
- The chmod pattern `^[ugoa]*\+x$` also accepts a mode ending in a
  newline, because Python's `$` matches before a final newline. The model
  accepts `+x\n` too.

## Model

| member | source | states |
|---|---|---|
| Policy.DeepCheckedAreAllowed | security.py:17-64 | every name that gets a deep check is on the allowlist, so a deep check is reached only after the allowlist test passed |
| Text.Strip | security.py:120 | `strip()` gives a slice of the text with only whitespace around it and none at its ends; it is empty exactly when the text is all whitespace |
| Text.StripPadded | security.py:120 | `strip()` removes exactly the leading whitespace in front of a text that has no whitespace at its ends |
| Text.FirstWord | security.py:190-191 | `split()[0]` is absent exactly when the text is all whitespace; otherwise it is the first maximal run of non-whitespace after the leading whitespace |
| Text.BasenameIsLastComponent | security.py:156 | `os.path.basename` returns the suffix after the last `/`: it holds no `/`, and it is either the whole path or preceded by a `/` |
| Text.BasenameOfSlashFree | security.py:156 | a path without `/` is its own basename |
| Text.BasenameAfterSlash | security.py:156 | the basename of `dir/name` is `name` whenever `name` holds no `/` |
| Shlex.SplitRender | security.py:125 | round trip: `shlex.split` of words quoted with backslashes and joined by spaces gives back exactly those words, including empty words and words holding quotes or spaces |
| Shlex.SplitPlainWords | security.py:125 | words without quotes, backslashes or whitespace, joined by single spaces, split back into exactly those words |
| Shlex.UnclosedSingleQuoteFails | security.py:124-128 | after text that splits cleanly, a single quote that is never closed makes `shlex.split` raise "No closing quotation" |
| Shlex.UnclosedDoubleQuoteFails | security.py:124-128 | after text that splits cleanly, a double quote that is never closed makes `shlex.split` fail, with "No closing quotation" when no backslash follows it |
| Shlex.TrailingBackslashFails | security.py:124-128 | after text that splits cleanly, a final lone backslash makes `shlex.split` raise "No escaped character" |
| Segments.QuoteBeforeSemicolonNoCut | security.py:117 | a `;` right after a quote is not a cut: with no other `;`, the string stays one segment |
| Segments.PiecesJoin | security.py:117 | nothing is lost by the cut: the pieces joined with `;` give the original string back, and there is one more piece than there are cuts |
| Segments.NoSemicolonOnePiece | security.py:117-120 | a string without `;` is one segment: the string stripped |
| Segments.CutOnce | security.py:117-120 | a single `;` with no quote on either side splits `a;b` into the segments `a` and `b`, each stripped |
| Extractor.FlagAndAssignmentArePrefixTests | security.py:147-153 | the flag and assignment tests are the source's `startswith("-")` and `"=" in token and not token.startswith("=")` |
| Extractor.CommandsFromProvenance | security.py:133-158 | every name the state machine yields is the basename of a command word of the segment; there are at most as many names as operators, plus one when a command is expected at the start |
| Extractor.UpToOperatorStops | security.py:136-140 | the tokens up to the first operator are a prefix holding no operator, and they end at the end of the list or just before an operator |
| Extractor.OneNameBeforeOperator | security.py:136-158 | before the first operator the machine names at most one command, and none when it does not expect one at the start |
| Extractor.NamesSplitAtOperator | security.py:138-140 | the names of a token list are those before its first operator followed by those of the tokens after it, read from the start state; with the lemma above, at most one name before the first operator and at most one after each operator |
| Extractor.NoCommandWordNoCommands | security.py:136-158 | tokens holding only operators, keywords, flags and assignments yield no name |
| Extractor.FirstCommandWordNamed | security.py:155-158 | from the start state, the first name is the basename of the first command word |
| Extractor.SegmentCommandsEmptyIff | security.py:130-158 | a segment adds a name exactly when one of its tokens is a command word |
| Extractor.SegmentFirstCommand | security.py:133-158 | a segment's first name is the basename of its first command word |
| Extractor.CollectFailsOnBadSegment | security.py:119-131 | one segment that does not tokenise voids the whole segment loop |
| Extractor.CollectProvenance | security.py:119-158 | every name the segment loop collects is named in one of the segments |
| Extractor.ExtractFailsOnBadSegment | security.py:116-128 | a command string with a segment that does not tokenise yields no names |
| Extractor.ExtractProvenance | security.py:112-160 | every extracted name comes from a command word of one of the `;`-segments |
| Extractor.ExtractBlank | security.py:119-122 | an empty or all-whitespace command string yields no names |
| DeepChecks.NonFlagsEmpty | security.py:182 | the list of non-flag arguments is empty exactly when every argument is a flag |
| DeepChecks.NonFlagsLast | security.py:182-187 | the last non-flag kept is the last token of the list that is not a flag |
| DeepChecks.PkillName | security.py:189-191 | the name pkill is judged by is missing exactly when the target holds a space and is all whitespace; a target without a space is used as it is |
| DeepChecks.PkillTokensCases | security.py:181-196 | pkill is refused for lack of a target exactly when every argument is a flag; it is allowed exactly when its target names a development process; it raises exactly when its target is whitespace holding a space; any other refusal is "not a dev process" |
| DeepChecks.PkillDecidedByTarget | security.py:187-196 | the pkill verdict depends only on the target, the last non-flag after the first token |
| DeepChecks.ValidatePkill | security.py:176-179 | text that does not tokenise is refused as unparseable; otherwise the verdict is the one on its tokens |
| DeepChecks.FirstNonFlag | security.py:208-213 | the chmod mode is missing exactly when every argument is a flag; otherwise it is the first argument that is not a flag |
| DeepChecks.ExecModeIsShape | security.py:219 | the hand-written matcher accepts exactly the strings of the form who-letters, then `+x`, then nothing or one newline |
| DeepChecks.NumericModeRefused | security.py:219 | a mode holding a digit is never accepted |
| DeepChecks.ChmodTokens | security.py:205-222 | chmod is refused with fewer than three tokens, and refused with no mode when every argument is a flag; it is allowed exactly when its mode is an add-execute mode; a bad-mode refusal carries the mode, which fails the pattern |
| DeepChecks.ChmodDecidedByMode | security.py:208-222 | with three tokens or more, the chmod verdict depends only on the first non-flag argument |
| DeepChecks.ValidateChmod | security.py:200-203 | text that does not tokenise is refused as unparseable; otherwise the verdict is the one on its tokens |
| DeepChecks.InitScriptTokens | security.py:231-239 | allowed exactly when the first token ends in `/init.sh`; an empty token list is refused as empty; any other refusal names the first token |
| DeepChecks.ValidateInitScript | security.py:226-229 | text that does not tokenise is refused as unparseable; otherwise the verdict is the one on its tokens |
| DeepChecks.ShellScriptTokens | security.py:248-257 | allowed exactly when there is a second token and `init.sh` occurs in it; refused for a missing script exactly when there is no second token; any other refusal names the second token |
| DeepChecks.ValidateShellScript | security.py:243-246 | text that does not tokenise is refused as unparseable; otherwise the verdict is the one on its tokens |
| DeepChecks.ValidateNetwork | security.py:259-263 | curl and wget are always allowed |
| Validator.CheckCommand | security.py:83-108 | a name off the allowlist is refused exactly with "not in the allowed commands list"; an allowed name without a deep check passes; a deep-checked name gets its check's verdict |
| Validator.CheckAllFirstRefusal | security.py:83-110 | the loop allows exactly when every name passes; otherwise its answer is that of a name all of whose predecessors pass |
| Validator.ValidateCommand | security.py:66-110 | refused as unparseable exactly when no name is extracted; an allowed string has at least one name, and all its names are on the allowlist |
| Validator.FirstRefusalDecides | security.py:83-110 | when every earlier name passes, the first name that does not pass decides the answer of the loop, and so of `validate_command`, whatever names follow it |
| Validator.UnlistedCommandRefused | security.py:84-85 | a string naming a command off the allowlist is never allowed |
| Validator.FirstUnlistedNamed | security.py:83-85 | when the first failing name is off the allowlist, the refusal names it |
| Validator.BadSegmentRefused | security.py:124-128 | fail-closed: one segment with an open quote or a trailing backslash refuses the whole string as unparseable |
| Validator.BlankRefused | security.py:76-80 | an empty or all-whitespace string is refused as unparseable |
| Validator.NoCommandWordRefused | security.py:76-80 | a string whose segments hold only flags, keywords, assignments and operators is refused as unparseable |
| Validator.AllowedDeepChecksPassedOnWholeString | security.py:88-108 | for an allowed string naming pkill, chmod, init.sh, bash or sh, the corresponding check passed on the tokens of the entire string, not of that command's own arguments |
| ScopedValidator.InvocationsNameCommands | security.py:133-158 | the invocations are found exactly where the state machine finds its names: their command words' basenames are the extracted names |
| ScopedValidator.InvocationIsRun | security.py:133-158 | each invocation is a run of consecutive tokens of its segment, with no operator after its command word |
| ScopedValidator.CollectInvocationsMatch | security.py:119-131 | the segment loop fails on the same inputs whether it keeps names or invocations, and the names of the invocations are the names |
| ScopedValidator.ExtractInvocationsNames | security.py:112-160 | the command names of a string's invocations are the extracted names |
| ScopedValidator.PkillInvocation | security.py:187-196 | repaired pkill check: never raises, and allows exactly what the source's check allows |
| ScopedValidator.CheckInvocationSafe | security.py:84-108 | an invocation that passes has an allowlisted name, and its own arguments are safe |
| ScopedValidator.CheckInvocation | security.py:83-108 | one invocation's verdict: the refusal is "not in the allowed commands list" exactly when its name is off the allowlist, an allowed invocation has an allowlisted name, and the verdict is never unparseable or an exception |
| ScopedValidator.ValidateCommand | security.py:66-110 | the repaired validator never raises, and allows only strings with a command |
| ScopedValidator.AllowedIffEveryInvocationPasses | security.py:82-110 | allowed exactly when there is a command and every invocation passes its own check |
| ScopedValidator.NoCommandsUnparseable | security.py:76-80 | refused as unparseable exactly when no name is extracted, as before the repair |
| ScopedValidator.AllowedIsSafe | security.py:82-108 | an allowed string names only allowlisted commands, and every invocation is safe by its own arguments: a dev-process pkill target, an add-execute chmod mode, an `/init.sh` path, an `init.sh` script argument |
| ScopedValidator.UnlistedCommandDenied | security.py:84-85 | with the repair, a name off the allowlist always gives a refusal, never an exception |
| Scenarios.StopNodeAfterListing | security.py:83-108 | `ls; pkill node` is allowed by both validators |
| Scenarios.AddExecuteBit | security.py:198-222 | `chmod +x init.sh` is allowed by both validators |
| Scenarios.RelativeInitScript | security.py:224-239 | `./init.sh` is allowed by both validators, its name being the basename `init.sh` |
| Scenarios.InstallThenRemove | security.py:133-158 | `npm install && rm -rf /` is refused by both validators, naming `rm` |
| Scenarios.ModeFromEcho | security.py:93-96 | `echo +x && chmod 777 f` is allowed as written and refused with the bad mode `777` after the repair |
| Scenarios.TargetFromEcho | security.py:89-92 | `pkill sshd; echo node` is allowed as written and refused as not a dev process after the repair |
| Scenarios.ScriptFromEcho | security.py:101-104 | `echo init.sh && bash evil.sh` is allowed as written and refused, naming `evil.sh`, after the repair |
| Scenarios.BlankPkillTarget | security.py:190-191 | `pkill ' '` raises IndexError as written and is refused for a missing target after the repair |
| Scenarios.QuotedSemicolon | security.py:117-158 | `echo "x";rm -rf /` is one segment whose tokens are `echo`, `x;rm`, `-rf` and `/`, so only `echo` is extracted and both validators allow it |

## Left out

- The other files of the repository are not part of this model: the agent
  runners, the progress tracker and the MCP client. They only call the
  validator or are unrelated to it.
- The refusal messages are modelled as one `Reason` constructor per
  message. A constructor keeps the token the message shows, but not its
  wording. The pkill message prints a Python set, whose order is not
  defined.
- `shlex.split` is modelled only in the configuration the source uses:
  POSIX mode, no comments and whitespace-only splitting. Its `punctuation_chars`
  and non-POSIX modes are left out.
- The regular expressions are modelled by their meaning on `;` and by a
  matcher for the chmod pattern, not by a general regex engine. The cut
  happens at each `;` whose neighbours are not quotes, and then each piece is
  stripped. This gives the same segments as `re.split`, because the
  whitespace the match swallows is whitespace that `strip()` removes.
- `str.isspace` and the regex class `\s` are modelled by one fixed set of
  whitespace code points. The Python `str` methods are not modelled beyond
  those named above.
- Strings are sequences of Dafny `char`, which are Unicode scalar values.
  A Python `str` can also hold a lone surrogate code point; such strings
  are not modelled.
- Validator.CheckAllFirstRefusal: states which name decides a refusal,
  but not the order in which the deep checks run. The checks have no side
  effects, so the order cannot be observed.

## Findings

| source | as written | input that shows it | evidently intended | confidence | as-written member | corrected member |
|---|---|---|---|---|---|---|
| security.py:93-96 | `_validate_chmod` gets the whole command string, so the mode it checks is the first non-flag after the string's first token | `echo +x && chmod 777 f` is allowed | the mode of the `chmod` invocation itself is checked | high; not executed | Scenarios.ModeFromEcho | ScopedValidator.AllowedIsSafe |
| security.py:89-92 | `_validate_pkill` gets the whole command string, so the target it checks is the string's last non-flag | `pkill sshd; echo node` is allowed | the target of the `pkill` invocation itself is checked | high; not executed | Scenarios.TargetFromEcho | ScopedValidator.AllowedIsSafe |
| security.py:101-104 | `_validate_shell_script` gets the whole command string, so the script it checks is the string's second token | `echo init.sh && bash evil.sh` is allowed | the script argument of the `bash` invocation itself is checked | high; not executed | Scenarios.ScriptFromEcho | ScopedValidator.AllowedIsSafe |
| security.py:190-191 | a pkill target that is whitespace holding a space makes `target.split()` empty, and `[0]` raises IndexError out of `validate_command` | `pkill ' '` | refuse the command as having no process name | high; not executed | Scenarios.BlankPkillTarget | ScopedValidator.PkillInvocation |
