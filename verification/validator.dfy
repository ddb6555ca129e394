/** `SecurityValidator.validate_command`, as written: extract the command
    names, refuse when there are none, then check each name in order against
    the allowlist and, for the names that need it, run the deep check. The
    deep checks are given the WHOLE command string, not the segment the
    name came from. The first refusal ends the walk. */
module Validator {
  import opened Text
  import opened Shlex
  import opened Segments
  import opened Extractor
  import opened Policy
  import opened DeepChecks

  /** The `if cmd == ... elif ...` dispatch to the deep checks. */
  function DeepCheck(cmd: string, s: string): (r: Decision)
    requires cmd in NeedsExtraValidation
  {
    if cmd == "pkill" then ValidatePkill(s)
    else if cmd == "chmod" then ValidateChmod(s)
    else if cmd == "init.sh" then ValidateInitScript(s)
    else if cmd == "bash" || cmd == "sh" then ValidateShellScript(s)
    else ValidateNetwork(s)
  }

  /** One pass of the loop body: allowlist first, deep check second. */
  function CheckCommand(cmd: string, s: string): (r: Decision)
    ensures cmd !in AllowedCommands <==> r == Deny(NotAllowed(cmd))
    ensures r != Deny(Unparseable)
    ensures cmd in AllowedCommands && cmd !in NeedsExtraValidation ==> r == Allow
    ensures cmd in NeedsExtraValidation ==> r == DeepCheck(cmd, s)
  {
    if cmd !in AllowedCommands then Deny(NotAllowed(cmd))
    else if cmd in NeedsExtraValidation then DeepCheck(cmd, s)
    else Allow
  }

  /** Every name before index `i` passes. */
  ghost predicate PassBefore(cmds: seq<string>, s: string, i: int) {
    forall j :: 0 <= j < i && j < |cmds| ==> CheckCommand(cmds[j], s) == Allow
  }

  /** The loop over the names. */
  function CheckAll(cmds: seq<string>, s: string): Decision {
    if cmds == [] then Allow
    else
      var first := CheckCommand(cmds[0], s);
      if first != Allow then first else CheckAll(cmds[1..], s)
  }

  /** Allowed exactly when every name passes; otherwise the answer is that
      of the first name that does not pass. */
  lemma {:induction false} CheckAllFirstRefusal(cmds: seq<string>, s: string)
    ensures CheckAll(cmds, s) == Allow <==> forall i :: 0 <= i < |cmds| ==> CheckCommand(cmds[i], s) == Allow
    ensures CheckAll(cmds, s) != Allow ==>
      exists i :: 0 <= i < |cmds| && CheckAll(cmds, s) == CheckCommand(cmds[i], s) && PassBefore(cmds, s, i)
    decreases |cmds|
  {
    if cmds != [] && CheckCommand(cmds[0], s) == Allow {
      var r := CheckAll(cmds[1..], s);
      CheckAllFirstRefusal(cmds[1..], s);
      assert forall i :: 1 <= i < |cmds| ==> cmds[i] == cmds[1..][i - 1];
      if r != Allow {
        var i :| 0 <= i < |cmds[1..]| && r == CheckCommand(cmds[1..][i], s) && PassBefore(cmds[1..], s, i);
        assert PassBefore(cmds, s, i + 1);
      }
    } else if cmds != [] {
      assert PassBefore(cmds, s, 0);
    }
  }

  /** `validate_command(command_string)`. Sound: an allowed string has at
      least one command and every command it names is on the allowlist. */
  function ValidateCommand(s: string): (r: Decision)
    ensures ExtractCommands(s) == [] <==> r == Deny(Unparseable)
    ensures r == Allow ==> ExtractCommands(s) != []
    ensures r == Allow ==> forall c :: c in ExtractCommands(s) ==> c in AllowedCommands
  {
    var cmds := ExtractCommands(s);
    if cmds == [] then Deny(Unparseable)
    else
      CheckAllFirstRefusal(cmds, s);
      CheckAll(cmds, s)
  }

  /** The first refusal decides: when every name before index `i` passes
      and the name at `i` does not, the answer is that name's refusal,
      whatever the later names are. */
  lemma FirstRefusalDecides(cmds: seq<string>, s: string, i: nat)
    requires i < |cmds| && PassBefore(cmds, s, i)
    requires CheckCommand(cmds[i], s) != Allow
    ensures CheckAll(cmds, s) == CheckCommand(cmds[i], s)
    ensures cmds == ExtractCommands(s) ==> ValidateCommand(s) == CheckCommand(cmds[i], s)
  {
    var r := CheckAll(cmds, s);
    CheckAllFirstRefusal(cmds, s);
    var k :| 0 <= k < |cmds| && r == CheckCommand(cmds[k], s) && PassBefore(cmds, s, k);
    assert k == i;
  }

  /** A name off the allowlist is never let through (whether the refusal
      is for that name or for an earlier one). */
  lemma UnlistedCommandRefused(s: string, c: string)
    requires c in ExtractCommands(s) && c !in AllowedCommands
    ensures ValidateCommand(s) != Allow
  {
  }

  /** When the first name off the allowlist comes before any name whose deep
      check fails, the refusal names it. */
  lemma FirstUnlistedNamed(s: string, i: nat)
    requires i < |ExtractCommands(s)| && ExtractCommands(s)[i] !in AllowedCommands
    requires PassBefore(ExtractCommands(s), s, i)
    ensures ValidateCommand(s) == Deny(NotAllowed(ExtractCommands(s)[i]))
  {
    var cmds := ExtractCommands(s);
    var r := CheckAll(cmds, s);
    CheckAllFirstRefusal(cmds, s);
    assert r != Allow;
    var k :| 0 <= k < |cmds| && r == CheckCommand(cmds[k], s) && PassBefore(cmds, s, k);
    assert k == i;
  }

  /** Fail-closed: one `;`-segment with an unterminated quote or a trailing
      backslash refuses the whole string, whatever the other segments hold. */
  lemma BadSegmentRefused(s: string, k: nat)
    requires k < |SegmentsOf(s)| && Split(SegmentsOf(s)[k]).Err?
    ensures ValidateCommand(s) == Deny(Unparseable)
  {
    ExtractFailsOnBadSegment(s, k);
  }

  /** Fail-closed: the empty string and whitespace are refused. */
  lemma BlankRefused(s: string)
    requires AllPySpace(s)
    ensures ValidateCommand(s) == Deny(Unparseable)
  {
    ExtractBlank(s);
  }

  predicate NoCommandWord(toks: seq<string>) {
    forall j :: 0 <= j < |toks| ==> !IsCommandWord(toks[j])
  }

  /** A string with no command word in any segment, only flags, keywords,
      assignments and operators, is refused as unparseable. */
  lemma NoCommandWordRefused(s: string)
    requires forall k :: 0 <= k < |SegmentsOf(s)| ==> Split(SegmentsOf(s)[k]).Ok?
    requires forall k :: 0 <= k < |SegmentsOf(s)| ==> NoCommandWord(Split(SegmentsOf(s)[k]).value)
    ensures ValidateCommand(s) == Deny(Unparseable)
  {
    if ExtractCommands(s) != [] {
      var c := ExtractCommands(s)[0];
      ExtractProvenance(s, c);
    }
  }

  /** Every name of an allowed string passes its own check. */
  lemma AllowedNamesPass(s: string, c: string)
    requires ValidateCommand(s) == Allow && c in ExtractCommands(s)
    ensures CheckCommand(c, s) == Allow
  {
    var cmds := ExtractCommands(s);
    var i :| 0 <= i < |cmds| && cmds[i] == c;
    CheckAllFirstRefusal(cmds, s);
  }

  /** A name that passes and needs a deep check passed that check on the
      tokens of the whole string. */
  lemma PassedDeepCheck(s: string, c: string)
    requires CheckCommand(c, s) == Allow
    ensures Split(s).Ok? || c == "curl" || c == "wget" || c !in NeedsExtraValidation
    ensures c == "pkill" ==> PkillTokens(Split(s).value) == Allow
    ensures c == "chmod" ==> ChmodTokens(Split(s).value) == Allow
    ensures c == "init.sh" ==> InitScriptTokens(Split(s).value) == Allow
    ensures c == "bash" || c == "sh" ==> ShellScriptTokens(Split(s).value) == Allow
  {
    if c == "pkill" {
      assert ValidatePkill(s) == Allow;
    } else if c == "chmod" {
      assert ValidateChmod(s) == Allow;
    } else if c == "init.sh" {
      assert ValidateInitScript(s) == Allow;
    } else if c == "bash" || c == "sh" {
      assert ValidateShellScript(s) == Allow;
    }
  }

  /** Deep checks see the whole string: when an allowed string runs `pkill`,
      `chmod`, `init.sh`, `bash` or `sh`, the corresponding check passed on
      the tokens of the entire command string. */
  lemma AllowedDeepChecksPassedOnWholeString(s: string, c: string)
    requires ValidateCommand(s) == Allow && c in ExtractCommands(s)
    ensures Split(s).Ok? || c == "curl" || c == "wget" || c !in NeedsExtraValidation
    ensures c == "pkill" ==> PkillTokens(Split(s).value) == Allow
    ensures c == "chmod" ==> ChmodTokens(Split(s).value) == Allow
    ensures c == "init.sh" ==> InitScriptTokens(Split(s).value) == Allow
    ensures c == "bash" || c == "sh" ==> ShellScriptTokens(Split(s).value) == Allow
  {
    AllowedNamesPass(s, c);
    PassedDeepCheck(s, c);
  }
}
