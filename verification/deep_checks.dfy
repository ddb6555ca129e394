/** The argument checks for the allowed commands that are dangerous in
    general: `_validate_pkill`, `_validate_chmod`, `_validate_init_script`,
    `_validate_shell_script` and `_validate_network_command`. Each takes a
    command string, runs `shlex.split` over it and judges the tokens; the
    token-level judgement is a function of its own so that it can also be
    applied to other token lists. */
module DeepChecks {
  import opened Results
  import opened Text
  import opened Shlex
  import opened Policy
  import opened Extractor

  /** `tokens[1:]` */
  function Rest(tokens: seq<string>): seq<string> {
    if tokens == [] then [] else tokens[1..]
  }

  // ----- pkill -----

  /** `[t for t in ts if not t.startswith("-")]` */
  function NonFlags(ts: seq<string>): seq<string> {
    if ts == [] then []
    else (if IsFlag(ts[0]) then [] else [ts[0]]) + NonFlags(ts[1..])
  }

  /** The non-flags are tokens of `ts` that are not flags. */
  lemma {:induction false} NonFlagsAreArguments(ts: seq<string>)
    ensures forall t :: t in NonFlags(ts) ==> t in ts && !IsFlag(t)
    decreases |ts|
  {
    if ts != [] {
      NonFlagsAreArguments(ts[1..]);
      assert forall t :: t in ts[1..] ==> t in ts;
    }
  }

  /** There are no non-flags exactly when every token is a flag. */
  lemma {:induction false} NonFlagsEmpty(ts: seq<string>)
    ensures NonFlags(ts) == [] <==> forall k :: 0 <= k < |ts| ==> IsFlag(ts[k])
    decreases |ts|
  {
    if ts != [] {
      NonFlagsEmpty(ts[1..]);
      assert forall k :: 1 <= k < |ts| ==> ts[k] == ts[1..][k - 1];
    }
  }

  /** The last of the non-flags is the last non-flag of `ts`. */
  lemma {:induction false} NonFlagsLast(ts: seq<string>)
    ensures NonFlags(ts) != [] ==> exists j :: IsLastNonFlag(ts, j) && ts[j] == NonFlags(ts)[|NonFlags(ts)| - 1]
    decreases |ts|
  {
    if ts != [] {
      var rest := NonFlags(ts[1..]);
      var r := NonFlags(ts);
      NonFlagsLast(ts[1..]);
      assert r == (if IsFlag(ts[0]) then [] else [ts[0]]) + rest;
      if rest != [] {
        var j :| IsLastNonFlag(ts[1..], j) && ts[1..][j] == rest[|rest| - 1];
        LastNonFlagShifts(ts, j);
      } else if !IsFlag(ts[0]) {
        NonFlagsEmpty(ts[1..]);
        assert forall k :: 1 <= k < |ts| ==> ts[k] == ts[1..][k - 1];
        assert IsLastNonFlag(ts, 0);
      }
    }
  }

  lemma LastNonFlagShifts(ts: seq<string>, j: int)
    requires ts != [] && IsLastNonFlag(ts[1..], j)
    ensures IsLastNonFlag(ts, j + 1) && ts[j + 1] == ts[1..][j]
  {
    assert forall k :: 1 <= k < |ts| ==> ts[k] == ts[1..][k - 1];
  }

  /** `ts[j]` is not a flag and everything after it is. */
  ghost predicate IsLastNonFlag(ts: seq<string>, j: int) {
    0 <= j < |ts| && !IsFlag(ts[j]) && forall k :: j < k < |ts| ==> IsFlag(ts[k])
  }

  lemma LastNonFlagUnique(ts: seq<string>, i: int, j: int)
    requires IsLastNonFlag(ts, i) && IsLastNonFlag(ts, j)
    ensures i == j
  {
  }

  /** The name `pkill` is judged by: the target itself, or its first word
      when it contains a space; None where `target.split()[0]` raises
      IndexError (a target of whitespace holding a space). */
  function PkillName(target: string): (r: Option<string>)
    ensures r.None? <==> ' ' in target && AllPySpace(target)
    ensures ' ' !in target ==> r == Some(target)
  {
    if ' ' in target then FirstWord(target) else Some(target)
  }

  /** `tokens[j]` is the target `pkill` is judged by: the last token after
      the first that is not a flag. */
  ghost predicate IsPkillTarget(tokens: seq<string>, j: int) {
    1 <= j && IsLastNonFlag(tokens, j)
  }

  predicate NamesDevProcess(target: string) {
    PkillName(target).Some? && PkillName(target).value in DevProcesses
  }

  /** The verdict of `_validate_pkill` on the tokens of its input: the
      target is the last non-flag of `tokens[1:]`. */
  function PkillTokens(tokens: seq<string>): Decision {
    var args := NonFlags(Rest(tokens));
    if args == [] then Deny(PkillNoTarget)
    else
      match PkillName(args[|args| - 1])
      case None => RaisedIndexError
      case Some(name) => if name in DevProcesses then Allow else Deny(PkillNotDevProcess)
  }

  /** The last non-flag of `tokens[1:]` is the pkill target, and there is
      none exactly when every argument is a flag. */
  lemma PkillTargetFound(tokens: seq<string>)
    ensures NonFlags(Rest(tokens)) == [] <==> forall k :: 1 <= k < |tokens| ==> IsFlag(tokens[k])
    ensures NonFlags(Rest(tokens)) != [] ==>
      exists j :: IsPkillTarget(tokens, j) && tokens[j] == NonFlags(Rest(tokens))[|NonFlags(Rest(tokens))| - 1]
  {
    var ts := Rest(tokens);
    NonFlagsEmpty(ts);
    NonFlagsLast(ts);
    assert forall k :: 1 <= k < |tokens| ==> tokens[k] == ts[k - 1];
    var args := NonFlags(ts);
    if args != [] {
      var j :| IsLastNonFlag(ts, j) && ts[j] == args[|args| - 1];
      assert IsLastNonFlag(tokens, j + 1);
    }
  }

  /** The pkill verdict is decided by the target alone: it raises when the
      target is a blank holding a space, allows when the name it is judged
      by is a development server, and refuses otherwise. */
  lemma PkillDecidedByTarget(tokens: seq<string>, j: int)
    requires IsPkillTarget(tokens, j)
    ensures PkillName(tokens[j]).None? ==> PkillTokens(tokens) == RaisedIndexError
    ensures PkillName(tokens[j]).Some? && PkillName(tokens[j]).value in DevProcesses ==> PkillTokens(tokens) == Allow
    ensures PkillName(tokens[j]).Some? && PkillName(tokens[j]).value !in DevProcesses ==> PkillTokens(tokens) == Deny(PkillNotDevProcess)
  {
    PkillTargetFound(tokens);
    var args := NonFlags(Rest(tokens));
    assert args != [];
    var i :| IsPkillTarget(tokens, i) && tokens[i] == args[|args| - 1];
    LastNonFlagUnique(tokens, i, j);
  }

  /** What `_validate_pkill` answers: no target exactly when every argument
      is a flag; allowed exactly when the target names a development
      server; raising exactly when the target is a blank holding a space;
      any other refusal is for a target that is not a development server. */
  lemma PkillTokensCases(tokens: seq<string>)
    ensures PkillTokens(tokens) == Deny(PkillNoTarget) <==> forall k :: 1 <= k < |tokens| ==> IsFlag(tokens[k])
    ensures PkillTokens(tokens) == Allow <==> exists j :: IsPkillTarget(tokens, j) && NamesDevProcess(tokens[j])
    ensures PkillTokens(tokens) == RaisedIndexError <==>
      exists j :: IsPkillTarget(tokens, j) && ' ' in tokens[j] && AllPySpace(tokens[j])
    ensures PkillTokens(tokens).Deny? ==> PkillTokens(tokens).reason in {PkillNoTarget, PkillNotDevProcess}
  {
    PkillTargetFound(tokens);
    var args := NonFlags(Rest(tokens));
    if args != [] {
      var i :| IsPkillTarget(tokens, i) && tokens[i] == args[|args| - 1];
      forall j | IsPkillTarget(tokens, j) ensures j == i {
        LastNonFlagUnique(tokens, i, j);
      }
    } else {
      assert forall j :: !IsPkillTarget(tokens, j);
    }
  }

  /** `_validate_pkill(command_string)` */
  function ValidatePkill(s: string): (r: Decision)
    ensures Split(s).Err? ==> r == Deny(PkillUnparseable)
    ensures Split(s).Ok? ==> r == PkillTokens(Split(s).value)
  {
    match Split(s)
    case Err(_) => Deny(PkillUnparseable)
    case Ok(tokens) => PkillTokens(tokens)
  }

  // ----- chmod -----

  /** The first element of `ts` that is not a flag. */
  function FirstNonFlag(ts: seq<string>): (r: Option<string>)
    ensures r.None? <==> forall k :: 0 <= k < |ts| ==> IsFlag(ts[k])
    ensures r.Some? ==> exists j :: IsFirstNonFlag(ts, j) && ts[j] == r.value
  {
    if ts == [] then None
    else if !IsFlag(ts[0]) then
      assert IsFirstNonFlag(ts, 0);
      Some(ts[0])
    else
      var r := FirstNonFlag(ts[1..]);
      assert forall k :: 1 <= k < |ts| ==> ts[k] == ts[1..][k - 1];
      assert r.Some? ==> exists j :: IsFirstNonFlag(ts, j) && ts[j] == r.value by {
        if r.Some? {
          var j :| IsFirstNonFlag(ts[1..], j) && ts[1..][j] == r.value;
          assert IsFirstNonFlag(ts, j + 1);
        }
      }
      r
  }

  /** `ts[j]` is not a flag and everything before it is. */
  ghost predicate IsFirstNonFlag(ts: seq<string>, j: int) {
    0 <= j < |ts| && !IsFlag(ts[j]) && forall k :: 0 <= k < j ==> IsFlag(ts[k])
  }

  /** `tokens[j]` is the mode `chmod` is judged by: the first token after the
      first that is not a flag. */
  ghost predicate IsChmodMode(tokens: seq<string>, j: int) {
    1 <= j < |tokens| && !IsFlag(tokens[j]) && forall k :: 1 <= k < j ==> IsFlag(tokens[k])
  }

  /** `re.match(r"^[ugoa]*\+x$", mode)`: who-letters, then `+x`, then the end
      of the string or a final newline (which Python's `$` also accepts). */
  predicate IsExecMode(m: string) {
    if m != [] && m[0] in "ugoa" then IsExecMode(m[1..])
    else m == "+x" || m == "+x\n"
  }

  /** The shape the regular expression describes: a run of `u`, `g`, `o`, `a`
      followed by exactly `+x` (or `+x` and a newline). */
  ghost predicate ExecModeShape(m: string) {
    exists k :: 0 <= k <= |m| && (forall i :: 0 <= i < k ==> m[i] in "ugoa")
      && (m[k..] == "+x" || m[k..] == "+x\n")
  }

  lemma {:induction false} ExecModeHasShape(m: string)
    requires IsExecMode(m)
    ensures ExecModeShape(m)
    decreases |m|
  {
    if m != [] && m[0] in "ugoa" {
      ExecModeHasShape(m[1..]);
      var k :| 0 <= k <= |m[1..]| && (forall i :: 0 <= i < k ==> m[1..][i] in "ugoa")
        && (m[1..][k..] == "+x" || m[1..][k..] == "+x\n");
      ShapeGrows(m, k);
    } else {
      assert m[0..] == m;
    }
  }

  /** One more who-letter in front keeps the shape. */
  lemma ShapeGrows(m: string, k: nat)
    requires m != [] && m[0] in "ugoa" && k <= |m| - 1
    requires forall i :: 0 <= i < k ==> m[1..][i] in "ugoa"
    requires m[1..][k..] == "+x" || m[1..][k..] == "+x\n"
    ensures ExecModeShape(m)
  {
    assert m[k + 1..] == m[1..][k..];
    forall i | 0 <= i < k + 1 ensures m[i] in "ugoa" {
      if i > 0 { assert m[i] == m[1..][i - 1]; }
    }
  }

  lemma {:induction false} ShapeIsExecMode(m: string, k: nat)
    requires k <= |m| && (forall i :: 0 <= i < k ==> m[i] in "ugoa")
    requires m[k..] == "+x" || m[k..] == "+x\n"
    ensures IsExecMode(m)
    decreases k
  {
    if k == 0 {
      assert m[0..] == m;
    } else {
      assert m[1..][k - 1..] == m[k..];
      forall i | 0 <= i < k - 1 ensures m[1..][i] in "ugoa" {
        assert m[1..][i] == m[i + 1];
      }
      ShapeIsExecMode(m[1..], k - 1);
    }
  }

  /** The hand-written matcher accepts exactly the strings the regular
      expression describes. */
  lemma ExecModeIsShape(m: string)
    ensures IsExecMode(m) <==> ExecModeShape(m)
  {
    if IsExecMode(m) {
      ExecModeHasShape(m);
    } else if ExecModeShape(m) {
      var k :| 0 <= k <= |m| && (forall i :: 0 <= i < k ==> m[i] in "ugoa")
        && (m[k..] == "+x" || m[k..] == "+x\n");
      ShapeIsExecMode(m, k);
    }
  }

  /** Numeric modes are refused: a mode holding any digit never matches. */
  lemma {:induction false} NumericModeRefused(m: string, i: int)
    requires 0 <= i < |m| && '0' <= m[i] <= '9'
    ensures !IsExecMode(m)
    decreases |m|
  {
    if m[0] in "ugoa" {
      assert 1 <= i && m[1..][i - 1] == m[i];
      NumericModeRefused(m[1..], i - 1);
    } else {
      assert m != "+x" && m != "+x\n";
    }
  }

  /** The verdict of `_validate_chmod` on the tokens of its input: at least
      three tokens, and the first non-flag after the first token must be an
      add-execute mode. */
  function ChmodTokens(tokens: seq<string>): (r: Decision)
    ensures r == Deny(ChmodTooFewTokens) <==> |tokens| < 3
    ensures r == Deny(ChmodNoMode) <==> |tokens| >= 3 && forall k :: 1 <= k < |tokens| ==> IsFlag(tokens[k])
    ensures r == Allow <==> |tokens| >= 3 && exists j :: IsChmodMode(tokens, j) && IsExecMode(tokens[j])
    ensures r.Deny? && r.reason.ChmodBadMode? ==> !IsExecMode(r.reason.mode)
    ensures r.Deny? && r.reason.ChmodBadMode? ==> exists j :: IsChmodMode(tokens, j) && tokens[j] == r.reason.mode
    ensures r.Deny? ==> r.reason == ChmodTooFewTokens || r.reason == ChmodNoMode || r.reason.ChmodBadMode?
    ensures !r.RaisedIndexError?
  {
    if |tokens| < 3 then Deny(ChmodTooFewTokens)
    else
      var ts := tokens[1..];
      assert forall k :: 1 <= k < |tokens| ==> tokens[k] == ts[k - 1];
      match FirstNonFlag(ts)
      case None => Deny(ChmodNoMode)
      case Some(mode) =>
        assert exists i :: IsChmodMode(tokens, i) && tokens[i] == mode by {
          var j :| IsFirstNonFlag(ts, j) && ts[j] == mode;
          assert IsChmodMode(tokens, j + 1);
        }
        assert forall i :: IsChmodMode(tokens, i) ==> tokens[i] == mode by {
          var j :| IsFirstNonFlag(ts, j) && ts[j] == mode;
          assert IsChmodMode(tokens, j + 1);
        }
        if IsExecMode(mode) then Allow else Deny(ChmodBadMode(mode))
  }

  /** The chmod verdict, once there are three tokens, is decided by the
      mode alone: allowed when it adds execute permission, refused naming
      it otherwise. */
  lemma ChmodDecidedByMode(tokens: seq<string>, j: int)
    requires |tokens| >= 3 && IsChmodMode(tokens, j)
    ensures ChmodTokens(tokens) == if IsExecMode(tokens[j]) then Allow else Deny(ChmodBadMode(tokens[j]))
  {
    assert forall i :: IsChmodMode(tokens, i) ==> i == j;
  }

  /** `_validate_chmod(command_string)` */
  function ValidateChmod(s: string): (r: Decision)
    ensures Split(s).Err? ==> r == Deny(ChmodUnparseable)
    ensures Split(s).Ok? ==> r == ChmodTokens(Split(s).value)
  {
    match Split(s)
    case Err(_) => Deny(ChmodUnparseable)
    case Ok(tokens) => ChmodTokens(tokens)
  }

  // ----- init.sh -----

  /** The verdict of `_validate_init_script` on the tokens of its input. The
      source accepts `./init.sh` or any path ending in `/init.sh`; since the
      first also ends in `/init.sh`, the rule is the second alone. */
  function InitScriptTokens(tokens: seq<string>): (r: Decision)
    ensures r == Allow <==> tokens != [] && EndsWith(tokens[0], "/init.sh")
    ensures tokens == [] <==> r == Deny(InitEmpty)
    ensures tokens != [] && r.Deny? ==> r == Deny(InitNotInitScript(tokens[0]))
    ensures !r.RaisedIndexError?
  {
    if tokens == [] then Deny(InitEmpty)
    else
      var script := tokens[0];
      if script == "./init.sh" || EndsWith(script, "/init.sh") then Allow
      else Deny(InitNotInitScript(script))
  }

  /** `_validate_init_script(command_string)` */
  function ValidateInitScript(s: string): (r: Decision)
    ensures Split(s).Err? ==> r == Deny(InitUnparseable)
    ensures Split(s).Ok? ==> r == InitScriptTokens(Split(s).value)
  {
    match Split(s)
    case Err(_) => Deny(InitUnparseable)
    case Ok(tokens) => InitScriptTokens(tokens)
  }

  // ----- bash / sh -----

  /** The verdict of `_validate_shell_script` on the tokens of its input:
      the second token must contain `init.sh` somewhere. */
  function ShellScriptTokens(tokens: seq<string>): (r: Decision)
    ensures r == Allow <==> |tokens| >= 2 && OccursIn("init.sh", tokens[1])
    ensures |tokens| < 2 <==> r == Deny(ShellNoScript)
    ensures |tokens| >= 2 && r.Deny? ==> r == Deny(ShellNotInitScript(tokens[1]))
    ensures !r.RaisedIndexError?
  {
    if |tokens| < 2 then Deny(ShellNoScript)
    else
      var arg := tokens[1];
      ContainsIsOccurrence(arg, "init.sh");
      if Contains(arg, "init.sh") then Allow else Deny(ShellNotInitScript(arg))
  }

  /** `_validate_shell_script(command_string)` */
  function ValidateShellScript(s: string): (r: Decision)
    ensures Split(s).Err? ==> r == Deny(ShellUnparseable)
    ensures Split(s).Ok? ==> r == ShellScriptTokens(Split(s).value)
  {
    match Split(s)
    case Err(_) => Deny(ShellUnparseable)
    case Ok(tokens) => ShellScriptTokens(tokens)
  }

  // ----- curl / wget -----

  /** `_validate_network_command(command_string)`: no restriction yet. */
  function ValidateNetwork(s: string): (r: Decision)
    ensures r == Allow
  {
    Allow
  }
}
