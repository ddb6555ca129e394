/** The validator with its two defects repaired, so that the property its
    deep checks are meant to give can be proved:

    - each deep check judges the tokens of its own invocation (the command
      word and what follows it up to the next operator of its `;`-segment)
      instead of the tokens of the whole command string;
    - a `pkill` target made only of whitespace is refused instead of raising
      IndexError.

    Extraction, the allowlist and the token-level checks are those of the
    as-written model. */
module ScopedValidator {
  import opened Results
  import opened Text
  import opened Shlex
  import opened Segments
  import opened Extractor
  import opened Policy
  import opened DeepChecks

  /** Each invocation the machine finds: its command word followed by the
      tokens after it up to the next operator. */
  function InvocationsFrom(toks: seq<string>, expectCommand: bool): (r: seq<seq<string>>)
    ensures forall i :: 0 <= i < |r| ==> r[i] != [] && IsCommandWord(r[i][0])
  {
    if toks == [] then []
    else
      var t := toks[0];
      var rest := InvocationsFrom(toks[1..], NextExpect(t, expectCommand));
      if IsCommandWord(t) && expectCommand then [[t] + UpToOperator(toks[1..])] + rest else rest
  }

  /** The command name of each invocation: the basename of its first token. */
  function Names(invs: seq<seq<string>>): (r: seq<string>)
    requires forall i :: 0 <= i < |invs| ==> invs[i] != []
    ensures |r| == |invs|
    ensures forall i :: 0 <= i < |invs| ==> r[i] == Basename(invs[i][0])
  {
    if invs == [] then []
    else
      var rest := Names(invs[1..]);
      assert forall i :: 1 <= i < |invs| ==> invs[i] == invs[1..][i - 1] && ([Basename(invs[0][0])] + rest)[i] == rest[i - 1];
      [Basename(invs[0][0])] + rest
  }

  lemma NamesAppend(a: seq<seq<string>>, b: seq<seq<string>>)
    requires forall i :: 0 <= i < |a| ==> a[i] != []
    requires forall i :: 0 <= i < |b| ==> b[i] != []
    ensures forall i :: 0 <= i < |a + b| ==> (a + b)[i] != []
    ensures Names(a + b) == Names(a) + Names(b)
  {
    assert forall i :: 0 <= i < |a + b| ==> (a + b)[i] == if i < |a| then a[i] else b[i - |a|];
  }

  /** One step of the name machine, written with `NextExpect`. */
  lemma CommandsStep(toks: seq<string>, expectCommand: bool)
    requires toks != []
    ensures CommandsFrom(toks, expectCommand)
      == (if IsCommandWord(toks[0]) && expectCommand then [Basename(toks[0])] else [])
         + CommandsFrom(toks[1..], NextExpect(toks[0], expectCommand))
  {
  }

  /** The invocations are found where `CommandsFrom` finds its names. */
  lemma {:induction false} InvocationsNameCommands(toks: seq<string>, expectCommand: bool)
    ensures Names(InvocationsFrom(toks, expectCommand)) == CommandsFrom(toks, expectCommand)
    decreases |toks|
  {
    if toks != [] {
      var t := toks[0];
      var e := NextExpect(t, expectCommand);
      InvocationsNameCommands(toks[1..], e);
      CommandsStep(toks, expectCommand);
      if IsCommandWord(t) && expectCommand {
        var inv := [t] + UpToOperator(toks[1..]);
        NamesAppend([inv], InvocationsFrom(toks[1..], e));
      }
    }
  }

  /** Each invocation of `toks` is a run of consecutive tokens of `toks`,
      starting at index `j`, with no operator after its command word. */
  lemma {:induction false} InvocationIsRun(toks: seq<string>, expectCommand: bool, i: nat) returns (j: nat)
    requires i < |InvocationsFrom(toks, expectCommand)|
    ensures j + |InvocationsFrom(toks, expectCommand)[i]| <= |toks|
    ensures toks[j..j + |InvocationsFrom(toks, expectCommand)[i]|] == InvocationsFrom(toks, expectCommand)[i]
    ensures forall k :: 1 <= k < |InvocationsFrom(toks, expectCommand)[i]| ==> InvocationsFrom(toks, expectCommand)[i][k] !in Operators
    decreases |toks|
  {
    var t := toks[0];
    var e := NextExpect(t, expectCommand);
    var invs := InvocationsFrom(toks[1..], e);
    if IsCommandWord(t) && expectCommand {
      var inv := [t] + UpToOperator(toks[1..]);
      assert InvocationsFrom(toks, expectCommand) == [inv] + invs;
      if i == 0 {
        j := 0;
        HeadRun(toks);
      } else {
        var j' := InvocationIsRun(toks[1..], e, i - 1);
        ShiftRun(toks, j', invs[i - 1]);
        j := j' + 1;
      }
    } else {
      var j' := InvocationIsRun(toks[1..], e, i);
      ShiftRun(toks, j', invs[i]);
      j := j' + 1;
    }
  }

  /** The invocation opened by the first token is the first tokens. */
  lemma HeadRun(toks: seq<string>)
    requires toks != []
    ensures var inv := [toks[0]] + UpToOperator(toks[1..]);
      |inv| <= |toks| && toks[0..|inv|] == inv && forall k :: 1 <= k < |inv| ==> inv[k] !in Operators
  {
    UpToOperatorStops(toks[1..]);
    var inv := [toks[0]] + UpToOperator(toks[1..]);
    assert toks[0..|inv|] == [toks[0]] + toks[1..][..|inv| - 1];
  }

  /** A run of `toks[1..]` is a run of `toks` one place further on. */
  lemma ShiftRun(toks: seq<string>, j: nat, run: seq<string>)
    requires toks != [] && j + |run| <= |toks| - 1 && toks[1..][j..j + |run|] == run
    ensures toks[j + 1..j + 1 + |run|] == run
  {
    assert toks[1..][j..j + |run|] == toks[j + 1..j + 1 + |run|];
  }

  /** `CollectCommands` keeping the invocations instead of only the names. */
  function CollectInvocations(segs: seq<string>): (r: Option<seq<seq<string>>>)
    ensures r.Some? ==> forall i :: 0 <= i < |r.value| ==> r.value[i] != []
  {
    if segs == [] then Some([])
    else if segs[0] == [] then CollectInvocations(segs[1..])
    else match Split(segs[0])
      case Err(_) => None
      case Ok(toks) =>
        match CollectInvocations(segs[1..])
        case None => None
        case Some(rest) => Some((if toks == [] then [] else InvocationsFrom(toks, true)) + rest)
  }

  /** The segment loop finds the same commands either way. */
  lemma {:induction false} CollectInvocationsMatch(segs: seq<string>)
    ensures CollectInvocations(segs).Some? <==> CollectCommands(segs).Some?
    ensures CollectInvocations(segs).Some? ==> Names(CollectInvocations(segs).value) == CollectCommands(segs).value
    decreases |segs|
  {
    if segs != [] {
      CollectInvocationsMatch(segs[1..]);
      if segs[0] != [] && Split(segs[0]).Ok? && CollectInvocations(segs[1..]).Some? {
        var toks := Split(segs[0]).value;
        var here := if toks == [] then [] else InvocationsFrom(toks, true);
        if toks != [] {
          InvocationsNameCommands(toks, true);
        }
        NamesAppend(here, CollectInvocations(segs[1..]).value);
      }
    }
  }

  /** The invocations of a whole command string, in the order the names are
      extracted. */
  function ExtractInvocations(s: string): (r: seq<seq<string>>)
    ensures forall i :: 0 <= i < |r| ==> r[i] != []
  {
    match CollectInvocations(SegmentsOf(s))
    case None => []
    case Some(invs) => invs
  }

  /** The command names of the invocations are the extracted names. */
  lemma ExtractInvocationsNames(s: string)
    ensures Names(ExtractInvocations(s)) == ExtractCommands(s)
  {
    CollectInvocationsMatch(SegmentsOf(s));
  }

  /** `_validate_pkill` on one invocation, refusing a blank target. */
  function PkillInvocation(inv: seq<string>): (r: Decision)
    ensures r == Allow <==> PkillTokens(inv) == Allow
    ensures !r.RaisedIndexError?
  {
    var d := PkillTokens(inv);
    if d == RaisedIndexError then Deny(PkillNoTarget) else d
  }

  function DeepCheckInvocation(name: string, inv: seq<string>): (r: Decision)
    requires name in NeedsExtraValidation
    ensures !r.RaisedIndexError?
    ensures r.Deny? ==> !r.reason.NotAllowed? && r.reason != Unparseable
  {
    if name == "pkill" then PkillInvocation(inv)
    else if name == "chmod" then ChmodTokens(inv)
    else if name == "init.sh" then InitScriptTokens(inv)
    else if name == "bash" || name == "sh" then ShellScriptTokens(inv)
    else ValidateNetwork(JoinWords(inv))
  }

  /** Its own target is one of the development servers. */
  ghost predicate PkillSafe(inv: seq<string>) {
    exists j :: IsPkillTarget(inv, j) && NamesDevProcess(inv[j])
  }

  /** Its own mode only adds execute permission. */
  ghost predicate ChmodSafe(inv: seq<string>) {
    |inv| >= 3 && exists j :: IsChmodMode(inv, j) && IsExecMode(inv[j])
  }

  /** Its own script argument mentions init.sh. */
  ghost predicate ShellSafe(inv: seq<string>) {
    |inv| >= 2 && OccursIn("init.sh", inv[1])
  }

  /** The property the deep checks are there to give, stated of one
      invocation by its own arguments. */
  ghost predicate OwnArgumentsSafe(inv: seq<string>)
    requires inv != []
  {
    var name := Basename(inv[0]);
    && (name == "pkill" ==> PkillSafe(inv))
    && (name == "chmod" ==> ChmodSafe(inv))
    && (name == "init.sh" ==> EndsWith(inv[0], "/init.sh"))
    && (name == "bash" || name == "sh" ==> ShellSafe(inv))
  }

  /** A deep check that passes vouches for the invocation's own arguments. */
  lemma DeepCheckInvocationSafe(inv: seq<string>)
    requires inv != [] && Basename(inv[0]) in NeedsExtraValidation
    requires DeepCheckInvocation(Basename(inv[0]), inv) == Allow
    ensures OwnArgumentsSafe(inv)
  {
    var name := Basename(inv[0]);
    if name == "pkill" {
      assert PkillTokens(inv) == Allow;
      PkillTokensCases(inv);
    } else if name == "chmod" {
      assert ChmodTokens(inv) == Allow;
    } else if name == "init.sh" {
      assert InitScriptTokens(inv) == Allow;
    } else if name == "bash" || name == "sh" {
      assert ShellScriptTokens(inv) == Allow;
    }
  }

  function CheckInvocation(inv: seq<string>): (r: Decision)
    requires inv != []
    ensures Basename(inv[0]) !in AllowedCommands <==> r == Deny(NotAllowed(Basename(inv[0])))
    ensures r == Allow ==> Basename(inv[0]) in AllowedCommands
    ensures r != Deny(Unparseable) && !r.RaisedIndexError?
  {
    var name := Basename(inv[0]);
    if name !in AllowedCommands then Deny(NotAllowed(name))
    else if name in NeedsExtraValidation then DeepCheckInvocation(name, inv)
    else Allow
  }

  /** An invocation that passes is on the allowlist and safe by its own
      arguments. */
  lemma CheckInvocationSafe(inv: seq<string>)
    requires inv != [] && CheckInvocation(inv) == Allow
    ensures Basename(inv[0]) in AllowedCommands && OwnArgumentsSafe(inv)
  {
    if Basename(inv[0]) in NeedsExtraValidation {
      DeepCheckInvocationSafe(inv);
    }
  }

  /** The loop's answer over a list of verdicts: the first refusal, or
      Allow when there is none. */
  function FirstRefusal(ds: seq<Decision>): (r: Decision)
    ensures r == Allow <==> forall i :: 0 <= i < |ds| ==> ds[i] == Allow
    ensures r != Allow ==> exists i :: 0 <= i < |ds| && ds[i] == r && forall j :: 0 <= j < i ==> ds[j] == Allow
  {
    if ds == [] then Allow
    else if ds[0] != Allow then ds[0]
    else
      var r := FirstRefusal(ds[1..]);
      assert forall i :: 1 <= i < |ds| ==> ds[i] == ds[1..][i - 1];
      assert r != Allow ==> exists i :: 0 <= i < |ds| && ds[i] == r && forall j :: 0 <= j < i ==> ds[j] == Allow by {
        if r != Allow {
          var i :| 0 <= i < |ds[1..]| && ds[1..][i] == r && forall j :: 0 <= j < i ==> ds[1..][j] == Allow;
          assert ds[i + 1] == r;
        }
      }
      r
  }

  /** The verdict of each invocation, in order. */
  function Verdicts(invs: seq<seq<string>>): (r: seq<Decision>)
    requires forall i :: 0 <= i < |invs| ==> invs[i] != []
    ensures |r| == |invs|
    ensures forall i :: 0 <= i < |r| ==> r[i] != Deny(Unparseable) && !r[i].RaisedIndexError?
    ensures forall i :: 0 <= i < |r| ==> r[i] == CheckInvocation(invs[i])
  {
    seq(|invs|, i requires 0 <= i < |invs| => CheckInvocation(invs[i]))
  }

  /** `validate_command` repaired: each invocation is checked on its own
      tokens and the first refusal is the answer. It never raises. */
  function ValidateCommand(s: string): (r: Decision)
    ensures !r.RaisedIndexError?
    ensures r == Allow ==> ExtractInvocations(s) != []
  {
    var invs := ExtractInvocations(s);
    if invs == [] then Deny(Unparseable)
    else FirstRefusal(Verdicts(invs))
  }

  /** Allowed exactly when there is a command and every invocation passes
      its own check. */
  lemma AllowedIffEveryInvocationPasses(s: string)
    ensures ValidateCommand(s) == Allow <==>
      ExtractInvocations(s) != [] && forall i :: 0 <= i < |ExtractInvocations(s)| ==> CheckInvocation(ExtractInvocations(s)[i]) == Allow
  {
    var invs := ExtractInvocations(s);
    if invs != [] {
      var ds := Verdicts(invs);
      assert ValidateCommand(s) == FirstRefusal(ds);
    }
  }

  /** A blank or unparseable string is refused for the same reason as
      before the repair. */
  lemma NoCommandsUnparseable(s: string)
    ensures ExtractCommands(s) == [] <==> ValidateCommand(s) == Deny(Unparseable)
  {
    ExtractInvocationsNames(s);
    var invs := ExtractInvocations(s);
    if invs != [] {
      var r := FirstRefusal(Verdicts(invs));
      assert r != Deny(Unparseable);
    }
  }

  /** Sound for the allowlist, and every invocation of an allowed string is
      safe by its own arguments: the property the deep checks of the
      as-written validator do not give. "Every invocation" means every one
      the extractor finds; a command hidden inside a token, as `rm` is in
      `echo "x";rm -rf /`, is not one of them. */
  lemma AllowedIsSafe(s: string)
    requires ValidateCommand(s) == Allow
    ensures ExtractCommands(s) != []
    ensures forall c :: c in ExtractCommands(s) ==> c in AllowedCommands
    ensures forall inv :: inv in ExtractInvocations(s) ==> inv != [] && OwnArgumentsSafe(inv)
  {
    var invs := ExtractInvocations(s);
    ExtractInvocationsNames(s);
    AllowedIffEveryInvocationPasses(s);
    forall i | 0 <= i < |invs| ensures Basename(invs[i][0]) in AllowedCommands && OwnArgumentsSafe(invs[i]) {
      CheckInvocationSafe(invs[i]);
    }
    var names := ExtractCommands(s);
    assert names == Names(invs);
    forall c | c in names ensures c in AllowedCommands {
      var i :| 0 <= i < |names| && names[i] == c;
      assert Names(invs)[i] == Basename(invs[i][0]);
    }
  }

  /** With the repair a name off the allowlist always yields a refusal,
      never an exception. */
  lemma UnlistedCommandDenied(s: string, c: string)
    requires c in ExtractCommands(s) && c !in AllowedCommands
    ensures ValidateCommand(s).Deny?
  {
    var invs := ExtractInvocations(s);
    ExtractInvocationsNames(s);
    AllowedIffEveryInvocationPasses(s);
    var i :| 0 <= i < |ExtractCommands(s)| && ExtractCommands(s)[i] == c;
    assert CheckInvocation(invs[i]) != Allow;
  }
}
