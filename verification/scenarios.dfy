/** Concrete command strings and what each validator answers for them: the
    ordinary agent commands for `validate_command`, and the inputs that
    show the defects of the as-written validator. */
module Scenarios {
  import opened Results
  import opened Text
  import opened Shlex
  import opened Segments
  import opened Extractor
  import opened Policy
  import opened DeepChecks
  import V = Validator
  import S = ScopedValidator

  // ----- the words the examples are made of -----

  /** Letters, digits and the punctuation the examples use. */
  predicate WordChar(c: char) {
    || ('a' <= c <= 'z') || ('A' <= c <= 'Z') || ('0' <= c <= '9')
    || c == '-' || c == '+' || c == '.' || c == '/' || c == '_' || c == '&'
  }

  /** A word of a segment: word characters only. */
  predicate Word(w: string) {
    w != [] && forall i :: 0 <= i < |w| ==> WordChar(w[i])
  }

  /** A token of the whole string, where a `;` stays glued to its word. */
  predicate Token(w: string) {
    w != [] && forall i :: 0 <= i < |w| ==> WordChar(w[i]) || w[i] == ';'
  }

  lemma WordCharIsPlain(c: char)
    requires WordChar(c)
    ensures IsPlain(c) && c != ';' && !IsPySpace(c) && !IsQuote(c)
  {
  }

  lemma TokensArePlain(ws: seq<string>)
    requires forall k :: 0 <= k < |ws| ==> Token(ws[k])
    ensures forall k :: 0 <= k < |ws| ==> PlainWord(ws[k])
  {
    forall k, i | 0 <= k < |ws| && 0 <= i < |ws[k]| ensures IsPlain(ws[k][i]) {
      if ws[k][i] != ';' {
        WordCharIsPlain(ws[k][i]);
      }
    }
  }

  /** The whole string, split on single spaces, is read back word by word. */
  lemma SplitTokens(ws: seq<string>)
    requires forall k :: 0 <= k < |ws| ==> Token(ws[k])
    ensures Split(JoinWords(ws)) == Ok(ws)
  {
    TokensArePlain(ws);
    SplitPlainWords(ws);
  }

  lemma {:induction false} JoinWordsEnds(ws: seq<string>)
    requires ws != [] && forall k :: 0 <= k < |ws| ==> Word(ws[k])
    ensures var s := JoinWords(ws);
      s != [] && !IsPySpace(s[0]) && !IsPySpace(s[|s| - 1]) && !IsQuote(s[|s| - 1])
    ensures forall k :: 0 <= k < |JoinWords(ws)| ==> JoinWords(ws)[k] != ';'
  {
    WordCharIsPlain(ws[0][0]);
    WordCharIsPlain(ws[|ws| - 1][|ws[|ws| - 1]| - 1]);
    forall k, i | 0 <= k < |ws| && 0 <= i < |ws[k]| ensures ws[k][i] != ';' {
      WordCharIsPlain(ws[k][i]);
    }
    if |ws| > 1 {
      JoinWordsEnds(ws[1..]);
      var rest := JoinWords(ws[1..]);
      assert JoinWords(ws) == ws[0] + " " + rest;
      assert forall k :: 0 <= k < |ws[0] + " " + rest| ==>
        (ws[0] + " " + rest)[k] == if k < |ws[0]| then ws[0][k] else if k == |ws[0]| then ' ' else rest[k - |ws[0]| - 1];
    }
  }

  lemma StripIdentity(s: string)
    requires s != [] && !IsPySpace(s[0]) && !IsPySpace(s[|s| - 1])
    ensures Strip(s) == s
  {
    var none: string := [];
    assert none + s == s;
    StripPadded(none, s);
  }

  lemma CollectOne(seg: string, toks: seq<string>)
    requires seg != [] && Split(seg) == Ok(toks) && toks != []
    ensures S.CollectInvocations([seg]) == Some(S.InvocationsFrom(toks, true))
  {
    var one: seq<string> := [seg];
    assert one[1..] == [];
    assert S.CollectInvocations(one[1..]) == Some([]);
    assert S.InvocationsFrom(toks, true) + [] == S.InvocationsFrom(toks, true);
  }

  lemma CollectTwo(a: string, b: string, ta: seq<string>, tb: seq<string>)
    requires a != [] && Split(a) == Ok(ta) && ta != []
    requires b != [] && Split(b) == Ok(tb) && tb != []
    ensures S.CollectInvocations([a, b]) == Some(S.InvocationsFrom(ta, true) + S.InvocationsFrom(tb, true))
  {
    var two: seq<string> := [a, b];
    assert two[1..] == [b];
    CollectOne(b, tb);
  }

  lemma WordsAreTokens(ws: seq<string>)
    requires forall k :: 0 <= k < |ws| ==> Word(ws[k])
    ensures forall k :: 0 <= k < |ws| ==> Token(ws[k])
  {
  }

  /** A string without `;` whose ends are not whitespace is one segment. */
  lemma SegmentsOne(s: string)
    requires s != [] && ';' !in s && !IsPySpace(s[0]) && !IsPySpace(s[|s| - 1])
    ensures SegmentsOf(s) == [s]
  {
    NoSemicolonOnePiece(s);
    StripIdentity(s);
  }

  /** Words joined by single spaces form one segment, read as those words. */
  lemma OneSegment(ws: seq<string>)
    requires ws != [] && forall k :: 0 <= k < |ws| ==> Word(ws[k])
    ensures S.ExtractInvocations(JoinWords(ws)) == S.InvocationsFrom(ws, true)
  {
    var s := JoinWords(ws);
    JoinedSplits(ws);
    JoinedIsOneSegment(ws);
    ReadOneSegment(s, ws);
  }

  lemma JoinedSplits(ws: seq<string>)
    requires forall k :: 0 <= k < |ws| ==> Word(ws[k])
    ensures Split(JoinWords(ws)) == Ok(ws)
  {
    WordsAreTokens(ws);
    SplitTokens(ws);
  }

  lemma JoinedIsOneSegment(ws: seq<string>)
    requires ws != [] && forall k :: 0 <= k < |ws| ==> Word(ws[k])
    ensures JoinWords(ws) != [] && SegmentsOf(JoinWords(ws)) == [JoinWords(ws)]
  {
    JoinWordsEnds(ws);
    SegmentsOne(JoinWords(ws));
  }

  lemma ReadOneSegment(s: string, ws: seq<string>)
    requires s != [] && SegmentsOf(s) == [s] && Split(s) == Ok(ws) && ws != []
    ensures S.ExtractInvocations(s) == S.InvocationsFrom(ws, true)
  {
    CollectOne(s, ws);
  }

  lemma TwoSegmentsOf(a: string, b: string)
    requires a != [] && ';' !in a && !IsPySpace(a[0]) && !IsPySpace(a[|a| - 1]) && !IsQuote(a[|a| - 1])
    requires b != [] && ';' !in b && !IsPySpace(b[0]) && !IsPySpace(b[|b| - 1])
    ensures SegmentsOf(a + "; " + b) == [a, b]
  {
    assert a + "; " + b == a + ";" + (" " + b);
    assert ';' !in " " + b by {
      assert forall k :: 1 <= k < |" " + b| ==> (" " + b)[k] == b[k - 1];
    }
    CutOnce(a, " " + b);
    StripIdentity(a);
    StripPadded(" ", b);
  }

  /** `a; b`, each side words joined by single spaces, is two segments. */
  lemma TwoSegments(wa: seq<string>, wb: seq<string>)
    requires wa != [] && forall k :: 0 <= k < |wa| ==> Word(wa[k])
    requires wb != [] && forall k :: 0 <= k < |wb| ==> Word(wb[k])
    ensures S.ExtractInvocations(JoinWords(wa) + "; " + JoinWords(wb)) == S.InvocationsFrom(wa, true) + S.InvocationsFrom(wb, true)
  {
    var a := JoinWords(wa);
    var b := JoinWords(wb);
    JoinedSplits(wa);
    JoinedSplits(wb);
    JoinedAreTwoSegments(wa, wb);
    ReadTwoSegments(a, b, wa, wb);
  }

  lemma JoinedAreTwoSegments(wa: seq<string>, wb: seq<string>)
    requires wa != [] && forall k :: 0 <= k < |wa| ==> Word(wa[k])
    requires wb != [] && forall k :: 0 <= k < |wb| ==> Word(wb[k])
    ensures JoinWords(wa) != [] && JoinWords(wb) != []
    ensures SegmentsOf(JoinWords(wa) + "; " + JoinWords(wb)) == [JoinWords(wa), JoinWords(wb)]
  {
    JoinWordsEnds(wa);
    JoinWordsEnds(wb);
    TwoSegmentsOf(JoinWords(wa), JoinWords(wb));
  }

  lemma ReadTwoSegments(a: string, b: string, wa: seq<string>, wb: seq<string>)
    requires SegmentsOf(a + "; " + b) == [a, b]
    requires a != [] && Split(a) == Ok(wa) && wa != []
    requires b != [] && Split(b) == Ok(wb) && wb != []
    ensures S.ExtractInvocations(a + "; " + b) == S.InvocationsFrom(wa, true) + S.InvocationsFrom(wb, true)
  {
    CollectTwo(a, b, wa, wb);
  }

  // ----- the validators on a string whose reading is known -----

  lemma CheckAllStep(cs: seq<string>, s: string)
    requires cs != []
    ensures V.CheckAll(cs, s) == if V.CheckCommand(cs[0], s) != Allow then V.CheckCommand(cs[0], s) else V.CheckAll(cs[1..], s)
  {
  }

  lemma AsWrittenUnfolds(s: string)
    requires ExtractCommands(s) != []
    ensures V.ValidateCommand(s) == V.CheckAll(ExtractCommands(s), s)
  {
  }

  lemma CheckAllOne(c: string, s: string)
    ensures V.CheckAll([c], s) == V.CheckCommand(c, s)
  {
    var cs := [c];
    CheckAllStep(cs, s);
    assert cs[1..] == [];
  }

  lemma CheckAllTwo(c1: string, c2: string, s: string)
    ensures V.CheckAll([c1, c2], s) == if V.CheckCommand(c1, s) != Allow then V.CheckCommand(c1, s) else V.CheckCommand(c2, s)
  {
    var cs := [c1, c2];
    CheckAllStep(cs, s);
    assert cs[1..] == [c2];
    CheckAllOne(c2, s);
  }

  lemma AsWrittenOne(s: string, c: string)
    requires ExtractCommands(s) == [c]
    ensures V.ValidateCommand(s) == V.CheckCommand(c, s)
  {
    AsWrittenUnfolds(s);
    CheckAllOne(c, s);
  }

  lemma AsWrittenTwo(s: string, c1: string, c2: string)
    requires ExtractCommands(s) == [c1, c2]
    ensures V.ValidateCommand(s) == if V.CheckCommand(c1, s) != Allow then V.CheckCommand(c1, s) else V.CheckCommand(c2, s)
  {
    AsWrittenUnfolds(s);
    CheckAllTwo(c1, c2, s);
  }

  lemma ListedPasses(c: string, s: string)
    requires c in AllowedCommands && c !in NeedsExtraValidation
    ensures V.CheckCommand(c, s) == Allow
  {
  }

  lemma UnlistedFails(c: string, s: string)
    requires c !in AllowedCommands
    ensures V.CheckCommand(c, s) == Deny(NotAllowed(c))
  {
  }

  /** The deep checks of the as-written validator see the tokens of the
      whole string. */
  lemma DeepOnWhole(s: string, ts: seq<string>)
    requires Split(s) == Ok(ts)
    ensures V.CheckCommand("pkill", s) == PkillTokens(ts)
    ensures V.CheckCommand("chmod", s) == ChmodTokens(ts)
    ensures V.CheckCommand("init.sh", s) == InitScriptTokens(ts)
    ensures V.CheckCommand("bash", s) == ShellScriptTokens(ts)
  {
  }

  lemma FirstRefusalOne(d: Decision)
    ensures S.FirstRefusal([d]) == d
  {
    var ds := [d];
    assert ds[1..] == [];
  }

  lemma FirstRefusalTwo(d1: Decision, d2: Decision)
    ensures S.FirstRefusal([d1, d2]) == if d1 != Allow then d1 else d2
  {
    var ds := [d1, d2];
    assert ds[1..] == [d2];
    FirstRefusalOne(d2);
  }

  lemma ScopedUnfolds(s: string)
    requires S.ExtractInvocations(s) != []
    ensures S.ValidateCommand(s) == S.FirstRefusal(S.Verdicts(S.ExtractInvocations(s)))
  {
  }

  lemma VerdictsOne(inv: seq<string>)
    requires inv != []
    ensures S.Verdicts([inv]) == [S.CheckInvocation(inv)]
  {
  }

  lemma VerdictsTwo(i1: seq<string>, i2: seq<string>)
    requires i1 != [] && i2 != []
    ensures S.Verdicts([i1, i2]) == [S.CheckInvocation(i1), S.CheckInvocation(i2)]
  {
  }

  lemma ScopedOne(s: string, inv: seq<string>)
    requires S.ExtractInvocations(s) == [inv]
    ensures inv != [] && S.ValidateCommand(s) == S.CheckInvocation(inv)
  {
    assert S.ExtractInvocations(s)[0] == inv;
    ScopedUnfolds(s);
    VerdictsOne(inv);
    FirstRefusalOne(S.CheckInvocation(inv));
  }

  lemma ScopedTwo(s: string, i1: seq<string>, i2: seq<string>)
    requires S.ExtractInvocations(s) == [i1, i2]
    ensures i1 != [] && i2 != []
    ensures S.ValidateCommand(s) == if S.CheckInvocation(i1) != Allow then S.CheckInvocation(i1) else S.CheckInvocation(i2)
  {
    assert S.ExtractInvocations(s)[0] == i1 && S.ExtractInvocations(s)[1] == i2;
    ScopedUnfolds(s);
    VerdictsTwo(i1, i2);
    FirstRefusalTwo(S.CheckInvocation(i1), S.CheckInvocation(i2));
  }

  /** `echo` passes whatever its arguments. */
  lemma EchoInvocation(inv: seq<string>)
    requires inv != [] && inv[0] == "echo"
    ensures S.CheckInvocation(inv) == Allow
  {
    BasenameOfSlashFree("echo");
  }

  /** `pkill` judged by a last argument with no space in it. */
  lemma PkillLast(ts: seq<string>)
    requires |ts| >= 2 && !IsFlag(ts[|ts| - 1]) && ' ' !in ts[|ts| - 1]
    ensures PkillTokens(ts) == if ts[|ts| - 1] in DevProcesses then Allow else Deny(PkillNotDevProcess)
  {
    PkillDecidedByTarget(ts, |ts| - 1);
  }

  /** A word that lacks one of the characters of `sub` does not contain it. */
  lemma NotOccursWithout(sub: string, s: string, k: int)
    requires 0 <= k < |sub| && sub[k] !in s
    ensures !OccursIn(sub, s)
  {
    forall i | 0 <= i <= |s| - |sub|
      ensures !StartsWith(s[i..], sub)
    {
      assert s[i..][k] == s[i + k] && s[i + k] in s;
    }
  }

  // ----- the examples -----

  lemma StopNodeAfterListingInvocations1()
    ensures S.InvocationsFrom(["ls"], true) == [["ls"]]
  {
    LsToken();
    assert UpToOperator([]) == [];
    assert ["ls"] + [] == ["ls"];
  }

  lemma StopNodeAfterListingInvocations2()
    ensures S.InvocationsFrom(["pkill", "node"], true) == [["pkill", "node"]]
  {
    PkillToken();
    NodeToken();
    assert UpToOperator(["node"]) == ["node"];
    assert ["pkill"] + ["node"] == ["pkill", "node"];
  }

  lemma StopNodeAfterListingWords()
    ensures forall k :: 0 <= k < |["ls"]| ==> Word(["ls"][k])
    ensures forall k :: 0 <= k < |["pkill", "node"]| ==> Word(["pkill", "node"][k])
    ensures forall k :: 0 <= k < |["ls;", "pkill", "node"]| ==> Token(["ls;", "pkill", "node"][k])
  {
  }

  lemma StopNodeAfterListingJoined()
    ensures JoinWords(["ls"]) + "; " + JoinWords(["pkill", "node"]) == "ls; pkill node"
  {
    JoinLs();
    JoinPkillNode();
  }

  lemma StopNodeAfterListingNames()
    ensures S.Names([["ls"], ["pkill", "node"]]) == ["ls", "pkill"]
  {
    BasenameOfSlashFree("ls");
    BasenameOfSlashFree("pkill");
  }

  /** How `ls; pkill node` is read: its commands and their invocations. */
  lemma StopNodeAfterListingReading()
    ensures ExtractCommands("ls; pkill node") == ["ls", "pkill"]
    ensures S.ExtractInvocations("ls; pkill node") == [["ls"], ["pkill", "node"]]
  {
    StopNodeAfterListingWords();
    StopNodeAfterListingInvocations1();
    StopNodeAfterListingInvocations2();
    TwoSegments(["ls"], ["pkill", "node"]);
    StopNodeAfterListingJoined();
    S.ExtractInvocationsNames("ls; pkill node");
    StopNodeAfterListingNames();
  }

  /** How `ls; pkill node` is tokenised as a whole. */
  lemma StopNodeAfterListingTokens()
    ensures Split("ls; pkill node") == Ok(["ls;", "pkill", "node"])
  {
    StopNodeAfterListingWords();
    SplitTokens(["ls;", "pkill", "node"]);
    JoinLsSemicolonPkillNode();
  }

  lemma StopNodeAfterListingWholeString()
    ensures PkillTokens(["ls;", "pkill", "node"]) == Allow
  {
    NodeIsDevServer();
    PkillLast(["ls;", "pkill", "node"]);
  }

  lemma StopNodeAfterListingAsWritten(s: string)
    requires Split(s) == Ok(["ls;", "pkill", "node"])
    requires ExtractCommands(s) == ["ls", "pkill"]
    ensures V.ValidateCommand(s) == Allow
  {
    LsListed();
    ListedPasses("ls", s);
    PkillChecked();
    StopNodeAfterListingWholeString();
    DeepOnWhole(s, ["ls;", "pkill", "node"]);
    AsWrittenTwo(s, "ls", "pkill");
  }

  lemma StopNodeAfterListingInvocation1()
    ensures S.CheckInvocation(["ls"]) == Allow
  {
    BasenameOfSlashFree("ls");
    LsListed();
  }

  lemma StopNodeAfterListingInvocation2Tokens()
    ensures PkillTokens(["pkill", "node"]) == Allow
  {
    NodeIsDevServer();
    PkillLast(["pkill", "node"]);
  }

  lemma StopNodeAfterListingInvocation2()
    ensures S.CheckInvocation(["pkill", "node"]) == Allow
  {
    BasenameOfSlashFree("pkill");
    PkillChecked();
    StopNodeAfterListingInvocation2Tokens();
  }

  lemma StopNodeAfterListingScoped(s: string)
    requires S.ExtractInvocations(s) == [["ls"], ["pkill", "node"]]
    ensures S.ValidateCommand(s) == Allow
  {
    StopNodeAfterListingInvocation1();
    StopNodeAfterListingInvocation2();
    ScopedTwo(s, ["ls"], ["pkill", "node"]);
  }

  /** `ls; pkill node` is allowed, before and after the repair. */
  lemma StopNodeAfterListing()
    ensures V.ValidateCommand("ls; pkill node") == Allow
    ensures S.ValidateCommand("ls; pkill node") == Allow
  {
    StopNodeAfterListingReading();
    StopNodeAfterListingTokens();
    StopNodeAfterListingAsWritten("ls; pkill node");
    StopNodeAfterListingScoped("ls; pkill node");
  }

  lemma AddExecuteBitInvocations()
    ensures S.InvocationsFrom(["chmod", "+x", "init.sh"], true) == [["chmod", "+x", "init.sh"]]
  {
    ChmodToken();
    PlusXToken();
    InitShToken();
    assert UpToOperator(["+x", "init.sh"]) == ["+x", "init.sh"];
    assert ["chmod"] + ["+x", "init.sh"] == ["chmod", "+x", "init.sh"];
  }

  lemma AddExecuteBitWords()
    ensures forall k :: 0 <= k < |["chmod", "+x", "init.sh"]| ==> Word(["chmod", "+x", "init.sh"][k])
    ensures forall k :: 0 <= k < |["chmod", "+x", "init.sh"]| ==> Token(["chmod", "+x", "init.sh"][k])
  {
  }

  lemma AddExecuteBitNames()
    ensures S.Names([["chmod", "+x", "init.sh"]]) == ["chmod"]
  {
    BasenameOfSlashFree("chmod");
  }

  /** How `chmod +x init.sh` is read: its commands and their invocations. */
  lemma AddExecuteBitReading()
    ensures ExtractCommands("chmod +x init.sh") == ["chmod"]
    ensures S.ExtractInvocations("chmod +x init.sh") == [["chmod", "+x", "init.sh"]]
  {
    AddExecuteBitWords();
    AddExecuteBitInvocations();
    OneSegment(["chmod", "+x", "init.sh"]);
    JoinChmodPlusXInitSh();
    S.ExtractInvocationsNames("chmod +x init.sh");
    AddExecuteBitNames();
  }

  /** How `chmod +x init.sh` is tokenised as a whole. */
  lemma AddExecuteBitTokens()
    ensures Split("chmod +x init.sh") == Ok(["chmod", "+x", "init.sh"])
  {
    AddExecuteBitWords();
    SplitTokens(["chmod", "+x", "init.sh"]);
    JoinChmodPlusXInitSh();
  }

  lemma AddExecuteBitWholeString()
    ensures ChmodTokens(["chmod", "+x", "init.sh"]) == Allow
  {
    assert IsChmodMode(["chmod", "+x", "init.sh"], 1);
    ChmodDecidedByMode(["chmod", "+x", "init.sh"], 1);
    assert IsExecMode("+x");
  }

  lemma AddExecuteBitAsWritten(s: string)
    requires Split(s) == Ok(["chmod", "+x", "init.sh"])
    requires ExtractCommands(s) == ["chmod"]
    ensures V.ValidateCommand(s) == Allow
  {
    ChmodChecked();
    AddExecuteBitWholeString();
    DeepOnWhole(s, ["chmod", "+x", "init.sh"]);
    AsWrittenOne(s, "chmod");
  }

  lemma AddExecuteBitInvocation1Tokens()
    ensures ChmodTokens(["chmod", "+x", "init.sh"]) == Allow
  {
    assert IsChmodMode(["chmod", "+x", "init.sh"], 1);
    ChmodDecidedByMode(["chmod", "+x", "init.sh"], 1);
    assert IsExecMode("+x");
  }

  lemma AddExecuteBitInvocation1()
    ensures S.CheckInvocation(["chmod", "+x", "init.sh"]) == Allow
  {
    BasenameOfSlashFree("chmod");
    ChmodChecked();
    AddExecuteBitInvocation1Tokens();
  }

  lemma AddExecuteBitScoped(s: string)
    requires S.ExtractInvocations(s) == [["chmod", "+x", "init.sh"]]
    ensures S.ValidateCommand(s) == Allow
  {
    AddExecuteBitInvocation1();
    ScopedOne(s, ["chmod", "+x", "init.sh"]);
  }

  /** `chmod +x init.sh` is allowed. */
  lemma AddExecuteBit()
    ensures V.ValidateCommand("chmod +x init.sh") == Allow
    ensures S.ValidateCommand("chmod +x init.sh") == Allow
  {
    AddExecuteBitReading();
    AddExecuteBitTokens();
    AddExecuteBitAsWritten("chmod +x init.sh");
    AddExecuteBitScoped("chmod +x init.sh");
  }

  lemma RelativeInitScriptInvocations()
    ensures S.InvocationsFrom(["./init.sh"], true) == [["./init.sh"]]
  {
    DotSlashInitShToken();
    assert UpToOperator([]) == [];
    assert ["./init.sh"] + [] == ["./init.sh"];
  }

  lemma RelativeInitScriptWords()
    ensures forall k :: 0 <= k < |["./init.sh"]| ==> Word(["./init.sh"][k])
    ensures forall k :: 0 <= k < |["./init.sh"]| ==> Token(["./init.sh"][k])
  {
  }

  lemma RelativeInitScriptNames()
    ensures S.Names([["./init.sh"]]) == ["init.sh"]
  {
    DotSlashInitShBasename();
  }

  /** How `./init.sh` is read: its commands and their invocations. */
  lemma RelativeInitScriptReading()
    ensures ExtractCommands("./init.sh") == ["init.sh"]
    ensures S.ExtractInvocations("./init.sh") == [["./init.sh"]]
  {
    RelativeInitScriptWords();
    RelativeInitScriptInvocations();
    OneSegment(["./init.sh"]);
    JoinDotSlashInitSh();
    S.ExtractInvocationsNames("./init.sh");
    RelativeInitScriptNames();
  }

  /** How `./init.sh` is tokenised as a whole. */
  lemma RelativeInitScriptTokens()
    ensures Split("./init.sh") == Ok(["./init.sh"])
  {
    RelativeInitScriptWords();
    SplitTokens(["./init.sh"]);
    JoinDotSlashInitSh();
  }

  lemma RelativeInitScriptWholeString()
    ensures InitScriptTokens(["./init.sh"]) == Allow
  {
    assert EndsWith("./init.sh", "/init.sh");
  }

  lemma RelativeInitScriptAsWritten(s: string)
    requires Split(s) == Ok(["./init.sh"])
    requires ExtractCommands(s) == ["init.sh"]
    ensures V.ValidateCommand(s) == Allow
  {
    InitShChecked();
    RelativeInitScriptWholeString();
    DeepOnWhole(s, ["./init.sh"]);
    AsWrittenOne(s, "init.sh");
  }

  lemma RelativeInitScriptInvocation1Tokens()
    ensures InitScriptTokens(["./init.sh"]) == Allow
  {
    assert EndsWith("./init.sh", "/init.sh");
  }

  lemma RelativeInitScriptInvocation1()
    ensures S.CheckInvocation(["./init.sh"]) == Allow
  {
    DotSlashInitShBasename();
    InitShChecked();
    RelativeInitScriptInvocation1Tokens();
  }

  lemma RelativeInitScriptScoped(s: string)
    requires S.ExtractInvocations(s) == [["./init.sh"]]
    ensures S.ValidateCommand(s) == Allow
  {
    RelativeInitScriptInvocation1();
    ScopedOne(s, ["./init.sh"]);
  }

  /** `./init.sh` is allowed. */
  lemma RelativeInitScript()
    ensures V.ValidateCommand("./init.sh") == Allow
    ensures S.ValidateCommand("./init.sh") == Allow
  {
    RelativeInitScriptReading();
    RelativeInitScriptTokens();
    RelativeInitScriptAsWritten("./init.sh");
    RelativeInitScriptScoped("./init.sh");
  }

  lemma InstallThenRemoveInvocations()
    ensures S.InvocationsFrom(["npm", "install", "&&", "rm", "-rf", "/"], true) == [["npm", "install"], ["rm", "-rf", "/"]]
  {
    NpmToken();
    InstallToken();
    AndAndToken();
    RmToken();
    DashRfToken();
    SlashToken();
    assert UpToOperator(["install", "&&", "rm", "-rf", "/"]) == ["install"];
    assert ["npm"] + ["install"] == ["npm", "install"];
    assert UpToOperator(["-rf", "/"]) == ["-rf", "/"];
    assert ["rm"] + ["-rf", "/"] == ["rm", "-rf", "/"];
  }

  lemma InstallThenRemoveWords()
    ensures forall k :: 0 <= k < |["npm", "install", "&&", "rm", "-rf", "/"]| ==> Word(["npm", "install", "&&", "rm", "-rf", "/"][k])
    ensures forall k :: 0 <= k < |["npm", "install", "&&", "rm", "-rf", "/"]| ==> Token(["npm", "install", "&&", "rm", "-rf", "/"][k])
  {
  }

  lemma InstallThenRemoveNames()
    ensures S.Names([["npm", "install"], ["rm", "-rf", "/"]]) == ["npm", "rm"]
  {
    BasenameOfSlashFree("npm");
    BasenameOfSlashFree("rm");
  }

  /** How `npm install && rm -rf /` is read: its commands and their invocations. */
  lemma InstallThenRemoveReading()
    ensures ExtractCommands("npm install && rm -rf /") == ["npm", "rm"]
    ensures S.ExtractInvocations("npm install && rm -rf /") == [["npm", "install"], ["rm", "-rf", "/"]]
  {
    InstallThenRemoveWords();
    InstallThenRemoveInvocations();
    OneSegment(["npm", "install", "&&", "rm", "-rf", "/"]);
    JoinNpmInstallAndAndRmDashRfSlash();
    S.ExtractInvocationsNames("npm install && rm -rf /");
    InstallThenRemoveNames();
  }

  lemma InstallThenRemoveAsWritten(s: string)
    requires ExtractCommands(s) == ["npm", "rm"]
    ensures V.ValidateCommand(s) == Deny(NotAllowed("rm"))
  {
    NpmListed();
    ListedPasses("npm", s);
    RmUnlisted();
    UnlistedFails("rm", s);
    AsWrittenTwo(s, "npm", "rm");
  }

  lemma InstallThenRemoveInvocation1()
    ensures S.CheckInvocation(["npm", "install"]) == Allow
  {
    BasenameOfSlashFree("npm");
    NpmListed();
  }

  lemma InstallThenRemoveInvocation2()
    ensures S.CheckInvocation(["rm", "-rf", "/"]) == Deny(NotAllowed("rm"))
  {
    BasenameOfSlashFree("rm");
    RmUnlisted();
  }

  lemma InstallThenRemoveScoped(s: string)
    requires S.ExtractInvocations(s) == [["npm", "install"], ["rm", "-rf", "/"]]
    ensures S.ValidateCommand(s) == Deny(NotAllowed("rm"))
  {
    InstallThenRemoveInvocation1();
    InstallThenRemoveInvocation2();
    ScopedTwo(s, ["npm", "install"], ["rm", "-rf", "/"]);
  }

  /** `npm install && rm -rf /` is refused, naming `rm`. */
  lemma InstallThenRemove()
    ensures V.ValidateCommand("npm install && rm -rf /") == Deny(NotAllowed("rm"))
    ensures S.ValidateCommand("npm install && rm -rf /") == Deny(NotAllowed("rm"))
  {
    InstallThenRemoveReading();
    InstallThenRemoveAsWritten("npm install && rm -rf /");
    InstallThenRemoveScoped("npm install && rm -rf /");
  }

  lemma ModeFromEchoInvocations()
    ensures S.InvocationsFrom(["echo", "+x", "&&", "chmod", "777", "f"], true) == [["echo", "+x"], ["chmod", "777", "f"]]
  {
    EchoToken();
    PlusXToken();
    AndAndToken();
    ChmodToken();
    SevenSevenSevenToken();
    FToken();
    assert UpToOperator(["+x", "&&", "chmod", "777", "f"]) == ["+x"];
    assert ["echo"] + ["+x"] == ["echo", "+x"];
    assert UpToOperator(["777", "f"]) == ["777", "f"];
    assert ["chmod"] + ["777", "f"] == ["chmod", "777", "f"];
  }

  lemma ModeFromEchoWords()
    ensures forall k :: 0 <= k < |["echo", "+x", "&&", "chmod", "777", "f"]| ==> Word(["echo", "+x", "&&", "chmod", "777", "f"][k])
    ensures forall k :: 0 <= k < |["echo", "+x", "&&", "chmod", "777", "f"]| ==> Token(["echo", "+x", "&&", "chmod", "777", "f"][k])
  {
  }

  lemma ModeFromEchoNames()
    ensures S.Names([["echo", "+x"], ["chmod", "777", "f"]]) == ["echo", "chmod"]
  {
    BasenameOfSlashFree("echo");
    BasenameOfSlashFree("chmod");
  }

  /** How `echo +x && chmod 777 f` is read: its commands and their invocations. */
  lemma ModeFromEchoReading()
    ensures ExtractCommands("echo +x && chmod 777 f") == ["echo", "chmod"]
    ensures S.ExtractInvocations("echo +x && chmod 777 f") == [["echo", "+x"], ["chmod", "777", "f"]]
  {
    ModeFromEchoWords();
    ModeFromEchoInvocations();
    OneSegment(["echo", "+x", "&&", "chmod", "777", "f"]);
    JoinEchoPlusXAndAndChmodSevenSevenSevenF();
    S.ExtractInvocationsNames("echo +x && chmod 777 f");
    ModeFromEchoNames();
  }

  /** How `echo +x && chmod 777 f` is tokenised as a whole. */
  lemma ModeFromEchoTokens()
    ensures Split("echo +x && chmod 777 f") == Ok(["echo", "+x", "&&", "chmod", "777", "f"])
  {
    ModeFromEchoWords();
    SplitTokens(["echo", "+x", "&&", "chmod", "777", "f"]);
    JoinEchoPlusXAndAndChmodSevenSevenSevenF();
  }

  lemma ModeFromEchoWholeString()
    ensures ChmodTokens(["echo", "+x", "&&", "chmod", "777", "f"]) == Allow
  {
    assert IsChmodMode(["echo", "+x", "&&", "chmod", "777", "f"], 1);
    ChmodDecidedByMode(["echo", "+x", "&&", "chmod", "777", "f"], 1);
    assert IsExecMode("+x");
  }

  lemma ModeFromEchoAsWritten(s: string)
    requires Split(s) == Ok(["echo", "+x", "&&", "chmod", "777", "f"])
    requires ExtractCommands(s) == ["echo", "chmod"]
    ensures V.ValidateCommand(s) == Allow
  {
    EchoListed();
    ListedPasses("echo", s);
    ChmodChecked();
    ModeFromEchoWholeString();
    DeepOnWhole(s, ["echo", "+x", "&&", "chmod", "777", "f"]);
    AsWrittenTwo(s, "echo", "chmod");
  }

  lemma ModeFromEchoInvocation2Tokens()
    ensures ChmodTokens(["chmod", "777", "f"]) == Deny(ChmodBadMode("777"))
  {
    assert IsChmodMode(["chmod", "777", "f"], 1);
    ChmodDecidedByMode(["chmod", "777", "f"], 1);
    NumericModeRefused("777", 0);
  }

  lemma ModeFromEchoInvocation2()
    ensures S.CheckInvocation(["chmod", "777", "f"]) == Deny(ChmodBadMode("777"))
  {
    BasenameOfSlashFree("chmod");
    ChmodChecked();
    ModeFromEchoInvocation2Tokens();
  }

  lemma ModeFromEchoScoped(s: string)
    requires S.ExtractInvocations(s) == [["echo", "+x"], ["chmod", "777", "f"]]
    ensures S.ValidateCommand(s) == Deny(ChmodBadMode("777"))
  {
    EchoInvocation(["echo", "+x"]);
    ModeFromEchoInvocation2();
    ScopedTwo(s, ["echo", "+x"], ["chmod", "777", "f"]);
  }

  /** `echo +x && chmod 777 f`: as written the mode is read from the `echo`, so the string is allowed; scoped, the `chmod` is refused. */
  lemma ModeFromEcho()
    ensures V.ValidateCommand("echo +x && chmod 777 f") == Allow
    ensures S.ValidateCommand("echo +x && chmod 777 f") == Deny(ChmodBadMode("777"))
  {
    ModeFromEchoReading();
    ModeFromEchoTokens();
    ModeFromEchoAsWritten("echo +x && chmod 777 f");
    ModeFromEchoScoped("echo +x && chmod 777 f");
  }

  lemma TargetFromEchoInvocations1()
    ensures S.InvocationsFrom(["pkill", "sshd"], true) == [["pkill", "sshd"]]
  {
    PkillToken();
    SshdToken();
    assert UpToOperator(["sshd"]) == ["sshd"];
    assert ["pkill"] + ["sshd"] == ["pkill", "sshd"];
  }

  lemma TargetFromEchoInvocations2()
    ensures S.InvocationsFrom(["echo", "node"], true) == [["echo", "node"]]
  {
    EchoToken();
    NodeToken();
    assert UpToOperator(["node"]) == ["node"];
    assert ["echo"] + ["node"] == ["echo", "node"];
  }

  lemma TargetFromEchoWords()
    ensures forall k :: 0 <= k < |["pkill", "sshd"]| ==> Word(["pkill", "sshd"][k])
    ensures forall k :: 0 <= k < |["echo", "node"]| ==> Word(["echo", "node"][k])
    ensures forall k :: 0 <= k < |["pkill", "sshd;", "echo", "node"]| ==> Token(["pkill", "sshd;", "echo", "node"][k])
  {
  }

  lemma TargetFromEchoJoined()
    ensures JoinWords(["pkill", "sshd"]) + "; " + JoinWords(["echo", "node"]) == "pkill sshd; echo node"
  {
    JoinPkillSshd();
    JoinEchoNode();
  }

  lemma TargetFromEchoNames()
    ensures S.Names([["pkill", "sshd"], ["echo", "node"]]) == ["pkill", "echo"]
  {
    BasenameOfSlashFree("pkill");
    BasenameOfSlashFree("echo");
  }

  /** How `pkill sshd; echo node` is read: its commands and their invocations. */
  lemma TargetFromEchoReading()
    ensures ExtractCommands("pkill sshd; echo node") == ["pkill", "echo"]
    ensures S.ExtractInvocations("pkill sshd; echo node") == [["pkill", "sshd"], ["echo", "node"]]
  {
    TargetFromEchoWords();
    TargetFromEchoInvocations1();
    TargetFromEchoInvocations2();
    TwoSegments(["pkill", "sshd"], ["echo", "node"]);
    TargetFromEchoJoined();
    S.ExtractInvocationsNames("pkill sshd; echo node");
    TargetFromEchoNames();
  }

  /** How `pkill sshd; echo node` is tokenised as a whole. */
  lemma TargetFromEchoTokens()
    ensures Split("pkill sshd; echo node") == Ok(["pkill", "sshd;", "echo", "node"])
  {
    TargetFromEchoWords();
    SplitTokens(["pkill", "sshd;", "echo", "node"]);
    JoinPkillSshdSemicolonEchoNode();
  }

  lemma TargetFromEchoWholeString()
    ensures PkillTokens(["pkill", "sshd;", "echo", "node"]) == Allow
  {
    NodeIsDevServer();
    PkillLast(["pkill", "sshd;", "echo", "node"]);
  }

  lemma TargetFromEchoAsWritten(s: string)
    requires Split(s) == Ok(["pkill", "sshd;", "echo", "node"])
    requires ExtractCommands(s) == ["pkill", "echo"]
    ensures V.ValidateCommand(s) == Allow
  {
    PkillChecked();
    TargetFromEchoWholeString();
    DeepOnWhole(s, ["pkill", "sshd;", "echo", "node"]);
    EchoListed();
    ListedPasses("echo", s);
    AsWrittenTwo(s, "pkill", "echo");
  }

  lemma TargetFromEchoInvocation1Tokens()
    ensures PkillTokens(["pkill", "sshd"]) == Deny(PkillNotDevProcess)
  {
    SshdIsNoDevServer();
    PkillLast(["pkill", "sshd"]);
  }

  lemma TargetFromEchoInvocation1()
    ensures S.CheckInvocation(["pkill", "sshd"]) == Deny(PkillNotDevProcess)
  {
    BasenameOfSlashFree("pkill");
    PkillChecked();
    TargetFromEchoInvocation1Tokens();
  }

  lemma TargetFromEchoScoped(s: string)
    requires S.ExtractInvocations(s) == [["pkill", "sshd"], ["echo", "node"]]
    ensures S.ValidateCommand(s) == Deny(PkillNotDevProcess)
  {
    TargetFromEchoInvocation1();
    EchoInvocation(["echo", "node"]);
    ScopedTwo(s, ["pkill", "sshd"], ["echo", "node"]);
  }

  /** `pkill sshd; echo node`: as written the target is the last word of the string, `node`, so it is allowed; scoped, `sshd` is refused. */
  lemma TargetFromEcho()
    ensures V.ValidateCommand("pkill sshd; echo node") == Allow
    ensures S.ValidateCommand("pkill sshd; echo node") == Deny(PkillNotDevProcess)
  {
    TargetFromEchoReading();
    TargetFromEchoTokens();
    TargetFromEchoAsWritten("pkill sshd; echo node");
    TargetFromEchoScoped("pkill sshd; echo node");
  }

  lemma ScriptFromEchoInvocations()
    ensures S.InvocationsFrom(["echo", "init.sh", "&&", "bash", "evil.sh"], true) == [["echo", "init.sh"], ["bash", "evil.sh"]]
  {
    EchoToken();
    InitShToken();
    AndAndToken();
    BashToken();
    EvilShToken();
    assert UpToOperator(["init.sh", "&&", "bash", "evil.sh"]) == ["init.sh"];
    assert ["echo"] + ["init.sh"] == ["echo", "init.sh"];
    assert UpToOperator(["evil.sh"]) == ["evil.sh"];
    assert ["bash"] + ["evil.sh"] == ["bash", "evil.sh"];
  }

  lemma ScriptFromEchoWords()
    ensures forall k :: 0 <= k < |["echo", "init.sh", "&&", "bash", "evil.sh"]| ==> Word(["echo", "init.sh", "&&", "bash", "evil.sh"][k])
    ensures forall k :: 0 <= k < |["echo", "init.sh", "&&", "bash", "evil.sh"]| ==> Token(["echo", "init.sh", "&&", "bash", "evil.sh"][k])
  {
  }

  lemma ScriptFromEchoNames()
    ensures S.Names([["echo", "init.sh"], ["bash", "evil.sh"]]) == ["echo", "bash"]
  {
    BasenameOfSlashFree("echo");
    BasenameOfSlashFree("bash");
  }

  /** How `echo init.sh && bash evil.sh` is read: its commands and their invocations. */
  lemma ScriptFromEchoReading()
    ensures ExtractCommands("echo init.sh && bash evil.sh") == ["echo", "bash"]
    ensures S.ExtractInvocations("echo init.sh && bash evil.sh") == [["echo", "init.sh"], ["bash", "evil.sh"]]
  {
    ScriptFromEchoWords();
    ScriptFromEchoInvocations();
    OneSegment(["echo", "init.sh", "&&", "bash", "evil.sh"]);
    JoinEchoInitShAndAndBashEvilSh();
    S.ExtractInvocationsNames("echo init.sh && bash evil.sh");
    ScriptFromEchoNames();
  }

  /** How `echo init.sh && bash evil.sh` is tokenised as a whole. */
  lemma ScriptFromEchoTokens()
    ensures Split("echo init.sh && bash evil.sh") == Ok(["echo", "init.sh", "&&", "bash", "evil.sh"])
  {
    ScriptFromEchoWords();
    SplitTokens(["echo", "init.sh", "&&", "bash", "evil.sh"]);
    JoinEchoInitShAndAndBashEvilSh();
  }

  lemma ScriptFromEchoWholeString()
    ensures ShellScriptTokens(["echo", "init.sh", "&&", "bash", "evil.sh"]) == Allow
  {
    assert StartsWith("init.sh"[0..], "init.sh");
  }

  lemma ScriptFromEchoAsWritten(s: string)
    requires Split(s) == Ok(["echo", "init.sh", "&&", "bash", "evil.sh"])
    requires ExtractCommands(s) == ["echo", "bash"]
    ensures V.ValidateCommand(s) == Allow
  {
    EchoListed();
    ListedPasses("echo", s);
    BashChecked();
    ScriptFromEchoWholeString();
    DeepOnWhole(s, ["echo", "init.sh", "&&", "bash", "evil.sh"]);
    AsWrittenTwo(s, "echo", "bash");
  }

  lemma ScriptFromEchoInvocation2Tokens()
    ensures ShellScriptTokens(["bash", "evil.sh"]) == Deny(ShellNotInitScript("evil.sh"))
  {
    NotOccursWithout("init.sh", "evil.sh", 1);
  }

  lemma ScriptFromEchoInvocation2()
    ensures S.CheckInvocation(["bash", "evil.sh"]) == Deny(ShellNotInitScript("evil.sh"))
  {
    BasenameOfSlashFree("bash");
    BashChecked();
    ScriptFromEchoInvocation2Tokens();
  }

  lemma ScriptFromEchoScoped(s: string)
    requires S.ExtractInvocations(s) == [["echo", "init.sh"], ["bash", "evil.sh"]]
    ensures S.ValidateCommand(s) == Deny(ShellNotInitScript("evil.sh"))
  {
    EchoInvocation(["echo", "init.sh"]);
    ScriptFromEchoInvocation2();
    ScopedTwo(s, ["echo", "init.sh"], ["bash", "evil.sh"]);
  }

  /** `echo init.sh && bash evil.sh`: as written the script is the second word of the string, so it is allowed; scoped, `evil.sh` is refused. */
  lemma ScriptFromEcho()
    ensures V.ValidateCommand("echo init.sh && bash evil.sh") == Allow
    ensures S.ValidateCommand("echo init.sh && bash evil.sh") == Deny(ShellNotInitScript("evil.sh"))
  {
    ScriptFromEchoReading();
    ScriptFromEchoTokens();
    ScriptFromEchoAsWritten("echo init.sh && bash evil.sh");
    ScriptFromEchoScoped("echo init.sh && bash evil.sh");
  }

  // ----- facts about the words of the examples -----

  lemma LsToken()
    ensures IsCommandWord("ls") && !("ls" in Operators)
    ensures NextExpect("ls", true) == false && NextExpect("ls", false) == false
  {
  }

  lemma PkillToken()
    ensures IsCommandWord("pkill") && !("pkill" in Operators)
    ensures NextExpect("pkill", true) == false && NextExpect("pkill", false) == false
  {
  }

  lemma NodeToken()
    ensures IsCommandWord("node") && !("node" in Operators)
    ensures NextExpect("node", true) == false && NextExpect("node", false) == false
  {
  }

  lemma JoinLs()
    ensures JoinWords(["ls"]) == "ls"
  {
  }

  lemma JoinNode()
    ensures JoinWords(["node"]) == "node"
  {
  }

  lemma JoinPkillNode()
    ensures JoinWords(["pkill", "node"]) == "pkill node"
  {
    JoinNode();
    assert ["pkill", "node"][1..] == ["node"];
    assert "pkill" + " " + "node" == "pkill node";
  }

  lemma JoinLsSemicolonPkillNode()
    ensures JoinWords(["ls;", "pkill", "node"]) == "ls; pkill node"
  {
    JoinPkillNode();
    assert ["ls;", "pkill", "node"][1..] == ["pkill", "node"];
    assert "ls;" + " " + "pkill node" == "ls; pkill node";
  }

  lemma LsListed()
    ensures "ls" in AllowedCommands && "ls" !in NeedsExtraValidation
  {
  }

  lemma PkillChecked()
    ensures "pkill" in AllowedCommands && "pkill" in NeedsExtraValidation
  {
  }

  lemma NodeIsDevServer()
    ensures "node" in DevProcesses && !IsFlag("node") && ' ' !in "node"
  {
  }

  lemma ChmodToken()
    ensures IsCommandWord("chmod") && !("chmod" in Operators)
    ensures NextExpect("chmod", true) == false && NextExpect("chmod", false) == false
  {
  }

  lemma PlusXToken()
    ensures IsCommandWord("+x") && !("+x" in Operators)
    ensures NextExpect("+x", true) == false && NextExpect("+x", false) == false
  {
  }

  lemma InitShToken()
    ensures IsCommandWord("init.sh") && !("init.sh" in Operators)
    ensures NextExpect("init.sh", true) == false && NextExpect("init.sh", false) == false
  {
  }

  lemma JoinInitSh()
    ensures JoinWords(["init.sh"]) == "init.sh"
  {
  }

  lemma JoinPlusXInitSh()
    ensures JoinWords(["+x", "init.sh"]) == "+x init.sh"
  {
    JoinInitSh();
    assert ["+x", "init.sh"][1..] == ["init.sh"];
    assert "+x" + " " + "init.sh" == "+x init.sh";
  }

  lemma JoinChmodPlusXInitSh()
    ensures JoinWords(["chmod", "+x", "init.sh"]) == "chmod +x init.sh"
  {
    JoinPlusXInitSh();
    assert ["chmod", "+x", "init.sh"][1..] == ["+x", "init.sh"];
    assert "chmod" + " " + "+x init.sh" == "chmod +x init.sh";
  }

  lemma ChmodChecked()
    ensures "chmod" in AllowedCommands && "chmod" in NeedsExtraValidation
  {
  }

  lemma DotSlashInitShToken()
    ensures IsCommandWord("./init.sh") && !("./init.sh" in Operators)
    ensures NextExpect("./init.sh", true) == false && NextExpect("./init.sh", false) == false
  {
  }

  lemma DotSlashInitShBasename()
    ensures Basename("./init.sh") == "init.sh"
  {
    assert "." + "/" + "init.sh" == "./init.sh";
    BasenameAfterSlash(".", "init.sh");
  }

  lemma JoinDotSlashInitSh()
    ensures JoinWords(["./init.sh"]) == "./init.sh"
  {
  }

  lemma InitShChecked()
    ensures "init.sh" in AllowedCommands && "init.sh" in NeedsExtraValidation
  {
  }

  lemma NpmToken()
    ensures IsCommandWord("npm") && !("npm" in Operators)
    ensures NextExpect("npm", true) == false && NextExpect("npm", false) == false
  {
  }

  lemma InstallToken()
    ensures IsCommandWord("install") && !("install" in Operators)
    ensures NextExpect("install", true) == false && NextExpect("install", false) == false
  {
  }

  lemma AndAndToken()
    ensures !IsCommandWord("&&") && ("&&" in Operators)
    ensures NextExpect("&&", true) == true && NextExpect("&&", false) == true
  {
  }

  lemma RmToken()
    ensures IsCommandWord("rm") && !("rm" in Operators)
    ensures NextExpect("rm", true) == false && NextExpect("rm", false) == false
  {
  }

  lemma DashRfToken()
    ensures !IsCommandWord("-rf") && !("-rf" in Operators)
    ensures NextExpect("-rf", true) == true && NextExpect("-rf", false) == false
  {
  }

  lemma SlashToken()
    ensures IsCommandWord("/") && !("/" in Operators)
    ensures NextExpect("/", true) == false && NextExpect("/", false) == false
  {
  }

  lemma JoinSlash()
    ensures JoinWords(["/"]) == "/"
  {
  }

  lemma JoinDashRfSlash()
    ensures JoinWords(["-rf", "/"]) == "-rf /"
  {
    JoinSlash();
    assert ["-rf", "/"][1..] == ["/"];
    assert "-rf" + " " + "/" == "-rf /";
  }

  lemma JoinRmDashRfSlash()
    ensures JoinWords(["rm", "-rf", "/"]) == "rm -rf /"
  {
    JoinDashRfSlash();
    assert ["rm", "-rf", "/"][1..] == ["-rf", "/"];
    assert "rm" + " " + "-rf /" == "rm -rf /";
  }

  lemma JoinAndAndRmDashRfSlash()
    ensures JoinWords(["&&", "rm", "-rf", "/"]) == "&& rm -rf /"
  {
    JoinRmDashRfSlash();
    assert ["&&", "rm", "-rf", "/"][1..] == ["rm", "-rf", "/"];
    assert "&&" + " " + "rm -rf /" == "&& rm -rf /";
  }

  lemma JoinInstallAndAndRmDashRfSlash()
    ensures JoinWords(["install", "&&", "rm", "-rf", "/"]) == "install && rm -rf /"
  {
    JoinAndAndRmDashRfSlash();
    assert ["install", "&&", "rm", "-rf", "/"][1..] == ["&&", "rm", "-rf", "/"];
    assert "install" + " " + "&& rm -rf /" == "install && rm -rf /";
  }

  lemma JoinNpmInstallAndAndRmDashRfSlash()
    ensures JoinWords(["npm", "install", "&&", "rm", "-rf", "/"]) == "npm install && rm -rf /"
  {
    JoinInstallAndAndRmDashRfSlash();
    assert ["npm", "install", "&&", "rm", "-rf", "/"][1..] == ["install", "&&", "rm", "-rf", "/"];
    assert "npm" + " " + "install && rm -rf /" == "npm install && rm -rf /";
  }

  lemma NpmListed()
    ensures "npm" in AllowedCommands && "npm" !in NeedsExtraValidation
  {
  }

  lemma RmUnlisted()
    ensures "rm" !in AllowedCommands
  {
  }

  lemma EchoToken()
    ensures IsCommandWord("echo") && !("echo" in Operators)
    ensures NextExpect("echo", true) == false && NextExpect("echo", false) == false
  {
  }

  lemma SevenSevenSevenToken()
    ensures IsCommandWord("777") && !("777" in Operators)
    ensures NextExpect("777", true) == false && NextExpect("777", false) == false
  {
  }

  lemma FToken()
    ensures IsCommandWord("f") && !("f" in Operators)
    ensures NextExpect("f", true) == false && NextExpect("f", false) == false
  {
  }

  lemma JoinF()
    ensures JoinWords(["f"]) == "f"
  {
  }

  lemma JoinSevenSevenSevenF()
    ensures JoinWords(["777", "f"]) == "777 f"
  {
    JoinF();
    assert ["777", "f"][1..] == ["f"];
    assert "777" + " " + "f" == "777 f";
  }

  lemma JoinChmodSevenSevenSevenF()
    ensures JoinWords(["chmod", "777", "f"]) == "chmod 777 f"
  {
    JoinSevenSevenSevenF();
    assert ["chmod", "777", "f"][1..] == ["777", "f"];
    assert "chmod" + " " + "777 f" == "chmod 777 f";
  }

  lemma JoinAndAndChmodSevenSevenSevenF()
    ensures JoinWords(["&&", "chmod", "777", "f"]) == "&& chmod 777 f"
  {
    JoinChmodSevenSevenSevenF();
    assert ["&&", "chmod", "777", "f"][1..] == ["chmod", "777", "f"];
    assert "&&" + " " + "chmod 777 f" == "&& chmod 777 f";
  }

  lemma JoinPlusXAndAndChmodSevenSevenSevenF()
    ensures JoinWords(["+x", "&&", "chmod", "777", "f"]) == "+x && chmod 777 f"
  {
    JoinAndAndChmodSevenSevenSevenF();
    assert ["+x", "&&", "chmod", "777", "f"][1..] == ["&&", "chmod", "777", "f"];
    assert "+x" + " " + "&& chmod 777 f" == "+x && chmod 777 f";
  }

  lemma JoinEchoPlusXAndAndChmodSevenSevenSevenF()
    ensures JoinWords(["echo", "+x", "&&", "chmod", "777", "f"]) == "echo +x && chmod 777 f"
  {
    JoinPlusXAndAndChmodSevenSevenSevenF();
    assert ["echo", "+x", "&&", "chmod", "777", "f"][1..] == ["+x", "&&", "chmod", "777", "f"];
    assert "echo" + " " + "+x && chmod 777 f" == "echo +x && chmod 777 f";
  }

  lemma EchoListed()
    ensures "echo" in AllowedCommands && "echo" !in NeedsExtraValidation
  {
  }

  lemma SshdToken()
    ensures IsCommandWord("sshd") && !("sshd" in Operators)
    ensures NextExpect("sshd", true) == false && NextExpect("sshd", false) == false
  {
  }

  lemma JoinSshd()
    ensures JoinWords(["sshd"]) == "sshd"
  {
  }

  lemma JoinPkillSshd()
    ensures JoinWords(["pkill", "sshd"]) == "pkill sshd"
  {
    JoinSshd();
    assert ["pkill", "sshd"][1..] == ["sshd"];
    assert "pkill" + " " + "sshd" == "pkill sshd";
  }

  lemma JoinEchoNode()
    ensures JoinWords(["echo", "node"]) == "echo node"
  {
    JoinNode();
    assert ["echo", "node"][1..] == ["node"];
    assert "echo" + " " + "node" == "echo node";
  }

  lemma JoinSshdSemicolonEchoNode()
    ensures JoinWords(["sshd;", "echo", "node"]) == "sshd; echo node"
  {
    JoinEchoNode();
    assert ["sshd;", "echo", "node"][1..] == ["echo", "node"];
    assert "sshd;" + " " + "echo node" == "sshd; echo node";
  }

  lemma JoinPkillSshdSemicolonEchoNode()
    ensures JoinWords(["pkill", "sshd;", "echo", "node"]) == "pkill sshd; echo node"
  {
    JoinSshdSemicolonEchoNode();
    assert ["pkill", "sshd;", "echo", "node"][1..] == ["sshd;", "echo", "node"];
    assert "pkill" + " " + "sshd; echo node" == "pkill sshd; echo node";
  }

  lemma SshdIsNoDevServer()
    ensures "sshd" !in DevProcesses && !IsFlag("sshd") && ' ' !in "sshd"
  {
  }

  lemma BashToken()
    ensures IsCommandWord("bash") && !("bash" in Operators)
    ensures NextExpect("bash", true) == false && NextExpect("bash", false) == false
  {
  }

  lemma EvilShToken()
    ensures IsCommandWord("evil.sh") && !("evil.sh" in Operators)
    ensures NextExpect("evil.sh", true) == false && NextExpect("evil.sh", false) == false
  {
  }

  lemma JoinEvilSh()
    ensures JoinWords(["evil.sh"]) == "evil.sh"
  {
  }

  lemma JoinBashEvilSh()
    ensures JoinWords(["bash", "evil.sh"]) == "bash evil.sh"
  {
    JoinEvilSh();
    assert ["bash", "evil.sh"][1..] == ["evil.sh"];
    assert "bash" + " " + "evil.sh" == "bash evil.sh";
  }

  lemma JoinAndAndBashEvilSh()
    ensures JoinWords(["&&", "bash", "evil.sh"]) == "&& bash evil.sh"
  {
    JoinBashEvilSh();
    assert ["&&", "bash", "evil.sh"][1..] == ["bash", "evil.sh"];
    assert "&&" + " " + "bash evil.sh" == "&& bash evil.sh";
  }

  lemma JoinInitShAndAndBashEvilSh()
    ensures JoinWords(["init.sh", "&&", "bash", "evil.sh"]) == "init.sh && bash evil.sh"
  {
    JoinAndAndBashEvilSh();
    assert ["init.sh", "&&", "bash", "evil.sh"][1..] == ["&&", "bash", "evil.sh"];
    assert "init.sh" + " " + "&& bash evil.sh" == "init.sh && bash evil.sh";
  }

  lemma JoinEchoInitShAndAndBashEvilSh()
    ensures JoinWords(["echo", "init.sh", "&&", "bash", "evil.sh"]) == "echo init.sh && bash evil.sh"
  {
    JoinInitShAndAndBashEvilSh();
    assert ["echo", "init.sh", "&&", "bash", "evil.sh"][1..] == ["init.sh", "&&", "bash", "evil.sh"];
    assert "echo" + " " + "init.sh && bash evil.sh" == "echo init.sh && bash evil.sh";
  }

  lemma BashChecked()
    ensures "bash" in AllowedCommands && "bash" in NeedsExtraValidation
  {
  }


  // ----- a blank pkill target -----

  lemma BlankToken()
    ensures IsCommandWord(" ") && !(" " in Operators)
  {
  }

  lemma BlankIsNoTarget()
    ensures PkillName(" ").None? && !IsFlag(" ")
  {
    assert ' ' in " " && AllPySpace(" ");
  }

  /** A quoted space is read as a word holding one space. */
  lemma QuotedBlankRead(words: seq<string>)
    ensures Run(Scan(Between, [], words), "' '") == Scan(InWord, " ", words)
  {
    var q := "' '";
    assert q[1..] == " '" && q[1..][1..] == "'" && q[1..][1..][1..] == [];
    assert [] + [' '] == " ";
  }

  /** How `pkill ' '` is tokenised: the quotes leave a one-space argument. */
  lemma BlankPkillTargetTokens()
    ensures Split("pkill ' '") == Ok(["pkill", " "])
  {
    var w := "pkill";
    assert PlainWord(w);
    PlainWordReads([], w);
    assert "pkill ' '" == w + (" " + "' '");
    RunAppend(Start, w, " " + "' '");
    RunAppend(Scan(InWord, w, []), " ", "' '");
    assert Run(Scan(InWord, w, []), " ") == Scan(Between, [], [w]);
    QuotedBlankRead([w]);
    assert [w] + [" "] == ["pkill", " "];
  }

  lemma BlankPkillTargetInvocations()
    ensures S.InvocationsFrom(["pkill", " "], true) == [["pkill", " "]]
  {
    PkillToken();
    BlankToken();
    assert UpToOperator([" "]) == [" "];
    assert ["pkill"] + [" "] == ["pkill", " "];
  }

  lemma BlankPkillTargetNames()
    ensures S.Names([["pkill", " "]]) == ["pkill"]
  {
    BasenameOfSlashFree("pkill");
  }

  /** How `pkill ' '` is read: one segment, one invocation, one command. */
  lemma BlankPkillTargetReading()
    ensures ExtractCommands("pkill ' '") == ["pkill"]
    ensures S.ExtractInvocations("pkill ' '") == [["pkill", " "]]
  {
    var s := "pkill ' '";
    assert ';' !in s;
    SegmentsOne(s);
    BlankPkillTargetTokens();
    ReadOneSegment(s, ["pkill", " "]);
    BlankPkillTargetInvocations();
    S.ExtractInvocationsNames(s);
    BlankPkillTargetNames();
  }

  lemma BlankPkillTargetDeep()
    ensures PkillTokens(["pkill", " "]) == RaisedIndexError
  {
    var ts := ["pkill", " "];
    BlankIsNoTarget();
    assert IsPkillTarget(ts, 1);
    PkillDecidedByTarget(ts, 1);
  }

  lemma BlankPkillTargetAsWritten(s: string)
    requires Split(s) == Ok(["pkill", " "])
    requires ExtractCommands(s) == ["pkill"]
    ensures V.ValidateCommand(s) == RaisedIndexError
  {
    PkillChecked();
    BlankPkillTargetDeep();
    DeepOnWhole(s, ["pkill", " "]);
    AsWrittenOne(s, "pkill");
  }

  lemma BlankPkillTargetInvocation()
    ensures S.CheckInvocation(["pkill", " "]) == Deny(PkillNoTarget)
  {
    BasenameOfSlashFree("pkill");
    PkillChecked();
    BlankPkillTargetDeep();
  }

  lemma BlankPkillTargetScoped(s: string)
    requires S.ExtractInvocations(s) == [["pkill", " "]]
    ensures S.ValidateCommand(s) == Deny(PkillNoTarget)
  {
    BlankPkillTargetInvocation();
    ScopedOne(s, ["pkill", " "]);
  }

  /** `pkill ' '`: the as-written check looks for the first word of a
      target that holds a space, finds none, and raises instead of
      answering; the repaired validator refuses it as a missing target. */
  lemma BlankPkillTarget()
    ensures V.ValidateCommand("pkill ' '") == RaisedIndexError
    ensures S.ValidateCommand("pkill ' '") == Deny(PkillNoTarget)
  {
    BlankPkillTargetTokens();
    BlankPkillTargetReading();
    BlankPkillTargetAsWritten("pkill ' '");
    BlankPkillTargetScoped("pkill ' '");
  }

  // ----- a quote glued to a `;` -----

  lemma ReadQuotedX(words: seq<string>)
    ensures Run(Scan(Between, [], words), "\"x\"") == Scan(InWord, "x", words)
  {
    var q := "\"x\"";
    var st := Scan(Between, [], words);
    assert Run(st, q) == Run(Step(st, '"'), q[1..]);
    assert q[1..] == "x\"";
    assert Run(Step(st, '"'), "x\"") == Run(Scan(InDouble, "x", words), "\"");
    assert Run(Scan(InDouble, "x", words), "\"") == Run(Scan(InWord, "x", words), "");
  }

  /** The `;` and `rm` after the closing quote extend the same word. */
  lemma ReadGlued(words: seq<string>)
    ensures Run(Scan(InWord, "x", words), ";rm ") == Scan(Between, [], words + ["x;rm"])
  {
    assert ";rm " == ";rm" + " ";
    RunAppend(Scan(InWord, "x", words), ";rm", " ");
    assert IsPlain(';') && IsPlain('r') && IsPlain('m');
    PlainExtends(Scan(InWord, "x", words), ";rm");
    assert "x" + ";rm" == "x;rm";
    assert Run(Scan(InWord, "x;rm", words), " ") == Step(Scan(InWord, "x;rm", words), ' ');
  }

  lemma ReadEchoThen(rest: string)
    ensures Run(Start, "echo" + (" " + rest)) == Run(Scan(Between, [], ["echo"]), rest)
  {
    assert PlainWord("echo");
    PlainThenSpace([], "echo", rest);
    assert [] + ["echo"] == ["echo"];
  }

  lemma QuotedSemicolonEcho()
    ensures Run(Start, "echo \"x\";rm -rf /") == Run(Scan(Between, [], ["echo"]), "\"x\";rm -rf /")
  {
    var rest := "\"x\";rm -rf /";
    assert "echo \"x\";rm -rf /" == "echo" + (" " + rest);
    ReadEchoThen(rest);
  }

  lemma QuotedSemicolonMiddle()
    ensures Run(Scan(Between, [], ["echo"]), "\"x\";rm -rf /") == Run(Scan(Between, [], ["echo", "x;rm"]), "-rf /")
  {
    var tail := "-rf /";
    assert "\"x\";rm -rf /" == "\"x\"" + (";rm " + tail);
    RunAppend(Scan(Between, [], ["echo"]), "\"x\"", ";rm " + tail);
    ReadQuotedX(["echo"]);
    RunAppend(Scan(InWord, "x", ["echo"]), ";rm ", tail);
    ReadGlued(["echo"]);
    assert ["echo"] + ["x;rm"] == ["echo", "x;rm"];
  }

  lemma QuotedSemicolonEnd()
    ensures Finish(Run(Scan(Between, [], ["echo", "x;rm"]), "-rf /")) == Ok(["echo", "x;rm", "-rf", "/"])
  {
    var ws := ["-rf", "/"];
    assert ws[1..] == ["/"];
    assert JoinWords(ws) == "-rf /";
    assert PlainWord("-rf") && PlainWord("/");
    JoinThenFinish(["echo", "x;rm"], ws);
    assert ["echo", "x;rm"] + ws == ["echo", "x;rm", "-rf", "/"];
  }

  /** `shlex` reads `"x";rm` as the single word `x;rm`. */
  lemma QuotedSemicolonTokens()
    ensures Split("echo \"x\";rm -rf /") == Ok(["echo", "x;rm", "-rf", "/"])
  {
    QuotedSemicolonEcho();
    QuotedSemicolonMiddle();
    QuotedSemicolonEnd();
  }

  /** The quote before the `;` keeps the string one segment. */
  lemma QuotedSemicolonSegments()
    ensures SegmentsOf("echo \"x\";rm -rf /") == ["echo \"x\";rm -rf /"]
  {
    var a := "echo \"x\"";
    var b := "rm -rf /";
    assert "echo \"x\";rm -rf /" == a + ";" + b;
    assert ';' !in a && ';' !in b;
    QuoteBeforeSemicolonNoCut(a, b);
    StripIdentity(a + ";" + b);
  }

  lemma QuotedSemicolonInvocations()
    ensures S.InvocationsFrom(["echo", "x;rm", "-rf", "/"], true) == [["echo", "x;rm", "-rf", "/"]]
  {
    EchoToken();
    assert UpToOperator(["x;rm", "-rf", "/"]) == ["x;rm", "-rf", "/"];
    assert ["echo"] + ["x;rm", "-rf", "/"] == ["echo", "x;rm", "-rf", "/"];
    assert !IsCommandWord("-rf") && NextExpect("x;rm", false) == false;
  }

  lemma QuotedSemicolonNames()
    ensures S.Names([["echo", "x;rm", "-rf", "/"]]) == ["echo"]
  {
    BasenameOfSlashFree("echo");
  }

  lemma QuotedSemicolonReadingOf(s: string)
    requires s != [] && SegmentsOf(s) == [s] && Split(s) == Ok(["echo", "x;rm", "-rf", "/"])
    ensures ExtractCommands(s) == ["echo"]
    ensures S.ExtractInvocations(s) == [["echo", "x;rm", "-rf", "/"]]
  {
    ReadOneSegment(s, ["echo", "x;rm", "-rf", "/"]);
    QuotedSemicolonInvocations();
    S.ExtractInvocationsNames(s);
    QuotedSemicolonNames();
  }

  /** How `echo "x";rm -rf /` is read: only `echo` is a command. */
  lemma QuotedSemicolonReading()
    ensures ExtractCommands("echo \"x\";rm -rf /") == ["echo"]
    ensures S.ExtractInvocations("echo \"x\";rm -rf /") == [["echo", "x;rm", "-rf", "/"]]
  {
    QuotedSemicolonSegments();
    QuotedSemicolonTokens();
    QuotedSemicolonReadingOf("echo \"x\";rm -rf /");
  }

  /** `echo "x";rm -rf /`: the quote glued to the `;` stops the cut, and
      `shlex` then reads `x;rm` as an argument of `echo`, so `rm` is never
      seen. Both validators allow it, since the repair only narrows what
      each deep check reads. A shell would run `rm -rf /`. */
  lemma QuotedSemicolon()
    ensures V.ValidateCommand("echo \"x\";rm -rf /") == Allow
    ensures S.ValidateCommand("echo \"x\";rm -rf /") == Allow
  {
    var s := "echo \"x\";rm -rf /";
    QuotedSemicolonReading();
    EchoListed();
    AsWrittenOne(s, "echo");
    BasenameOfSlashFree("echo");
    ScopedOne(s, ["echo", "x;rm", "-rf", "/"]);
  }
}
