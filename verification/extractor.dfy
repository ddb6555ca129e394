/** `_extract_commands`: the command names a command string would run.

    Each segment is tokenised; a two-state machine (expecting a command or
    not) walks the tokens. Operators send it back to expecting a command;
    keywords, flags and `NAME=value` assignments are skipped in either
    state; any other token is the command when one is expected, and only its
    basename is kept. Operators are recognised only as whole tokens, so
    `a&&b` is one word. One segment that does not tokenise voids the whole
    extraction. */
module Extractor {
  import opened Results
  import opened Text
  import opened Shlex
  import opened Segments

  const Operators: set<string> := {"|", "||", "&&", "&"}

  const Keywords: set<string> := {
    "if", "then", "else", "elif", "fi", "for", "while", "until",
    "do", "done", "case", "esac", "in", "!", "{", "}"
  }

  /** `token.startswith("-")`, by its first character. */
  predicate IsFlag(t: string) {
    t != [] && t[0] == '-'
  }

  /** `"=" in token and not token.startswith("=")` */
  predicate IsAssignment(t: string) {
    t != [] && '=' in t && t[0] != '='
  }

  /** The first-character tests are the `startswith` tests of the source. */
  lemma FlagAndAssignmentArePrefixTests(t: string)
    ensures IsFlag(t) <==> StartsWith(t, "-")
    ensures IsAssignment(t) <==> '=' in t && !StartsWith(t, "=")
  {
    if t != [] {
      assert t[..1] == [t[0]];
    }
  }

  /** A token that names the command when the machine expects one. */
  predicate IsCommandWord(t: string) {
    t !in Operators && t !in Keywords && !IsFlag(t) && !IsAssignment(t)
  }

  function OperatorCount(toks: seq<string>): nat {
    if toks == [] then 0
    else (if toks[0] in Operators then 1 else 0) + OperatorCount(toks[1..])
  }

  /** `c` is the basename of some command word of `toks`. */
  ghost predicate NamesCommandWord(toks: seq<string>, c: string) {
    exists j :: 0 <= j < |toks| && IsCommandWord(toks[j]) && c == Basename(toks[j])
  }

  lemma NamesTail(toks: seq<string>, c: string)
    requires toks != [] && NamesCommandWord(toks[1..], c)
    ensures NamesCommandWord(toks, c)
  {
    var j :| 0 <= j < |toks[1..]| && IsCommandWord(toks[1..][j]) && c == Basename(toks[1..][j]);
    assert toks[1..][j] == toks[j + 1];
  }

  /** The state after reading token `t`: an operator makes the machine
      expect a command, a keyword, flag or assignment leaves the state as it
      was, and any other token (the command or one of its arguments) makes
      it stop expecting one. */
  function NextExpect(t: string, expectCommand: bool): bool {
    if t in Operators then true
    else if t in Keywords || IsFlag(t) || IsAssignment(t) then expectCommand
    else false
  }

  /** The machine over `toks` from the given state: the basename of each
      command word read while a command is expected. */
  function CommandsFrom(toks: seq<string>, expectCommand: bool): seq<string> {
    if toks == [] then []
    else
      var t := toks[0];
      var rest := CommandsFrom(toks[1..], NextExpect(t, expectCommand));
      if IsCommandWord(t) && expectCommand then [Basename(t)] + rest else rest
  }

  /** Every name the machine produces comes from a command word of `toks`,
      and there are at most as many names as operators, plus one when a
      command is expected at the start. */
  lemma {:induction false} CommandsFromProvenance(toks: seq<string>, expectCommand: bool)
    ensures forall c :: c in CommandsFrom(toks, expectCommand) ==> NamesCommandWord(toks, c)
    ensures |CommandsFrom(toks, expectCommand)| <= (if expectCommand then 1 else 0) + OperatorCount(toks)
    decreases |toks|
  {
    if toks != [] {
      var t := toks[0];
      var rest := CommandsFrom(toks[1..], NextExpect(t, expectCommand));
      CommandsFromProvenance(toks[1..], NextExpect(t, expectCommand));
      forall c | c in rest ensures NamesCommandWord(toks, c) {
        NamesTail(toks, c);
      }
      if IsCommandWord(t) && expectCommand {
        assert CommandsFrom(toks, expectCommand) == [Basename(t)] + rest;
        assert NamesCommandWord(toks, Basename(t)) by {
          assert IsCommandWord(toks[0]);
        }
      }
    }
  }

  /** The tokens before the first operator. */
  function UpToOperator(toks: seq<string>): seq<string> {
    if toks == [] || toks[0] in Operators then [] else [toks[0]] + UpToOperator(toks[1..])
  }

  /** `UpToOperator` keeps a prefix free of operators, and stops at the end
      or at an operator. */
  lemma {:induction false} UpToOperatorStops(toks: seq<string>)
    ensures UpToOperator(toks) <= toks
    ensures forall i :: 0 <= i < |UpToOperator(toks)| ==> UpToOperator(toks)[i] !in Operators
    ensures |UpToOperator(toks)| == |toks| || toks[|UpToOperator(toks)|] in Operators
    decreases |toks|
  {
    if toks != [] && toks[0] !in Operators {
      var rest := UpToOperator(toks[1..]);
      UpToOperatorStops(toks[1..]);
      assert UpToOperator(toks) == [toks[0]] + rest;
      assert toks == [toks[0]] + toks[1..];
      assert forall i :: 1 <= i < |UpToOperator(toks)| ==> UpToOperator(toks)[i] == rest[i - 1];
    }
  }

  /** Before the first operator the machine names at most one command,
      and none when it does not expect one at the start. */
  lemma {:induction false} OneNameBeforeOperator(toks: seq<string>, expectCommand: bool)
    ensures |CommandsFrom(UpToOperator(toks), expectCommand)| <= 1
    ensures !expectCommand ==> CommandsFrom(UpToOperator(toks), expectCommand) == []
    decreases |toks|
  {
    if toks != [] && toks[0] !in Operators {
      var t := toks[0];
      assert UpToOperator(toks) == [t] + UpToOperator(toks[1..]);
      assert ([t] + UpToOperator(toks[1..]))[1..] == UpToOperator(toks[1..]);
      OneNameBeforeOperator(toks[1..], NextExpect(t, expectCommand));
    }
  }

  /** The names of `toks` are those before its first operator, followed by
      the names of the tokens after that operator read from the start
      state. With `OneNameBeforeOperator` this gives at most one name before
      the first operator and at most one after each operator. */
  lemma {:induction false} NamesSplitAtOperator(toks: seq<string>, expectCommand: bool)
    ensures var u := UpToOperator(toks);
      |u| <= |toks| &&
      CommandsFrom(toks, expectCommand) ==
        CommandsFrom(u, expectCommand) + (if |u| == |toks| then [] else CommandsFrom(toks[|u| + 1..], true))
    decreases |toks|
  {
    if toks != [] && toks[0] !in Operators {
      var t := toks[0];
      var u1 := UpToOperator(toks[1..]);
      NamesSplitAtOperator(toks[1..], NextExpect(t, expectCommand));
      assert UpToOperator(toks) == [t] + u1;
      assert ([t] + u1)[1..] == u1;
      if |u1| < |toks[1..]| {
        assert toks[1..][|u1| + 1..] == toks[|u1| + 2..];
      }
    }
  }

  /** The commands of one tokenised segment. */
  function SegmentCommands(toks: seq<string>): seq<string> {
    CommandsFrom(toks, true)
  }

  /** The loop over segments; None where a segment fails to tokenise (the
      `return []` of the source). Blank segments and segments without tokens
      are passed over. */
  function CollectCommands(segs: seq<string>): Option<seq<string>> {
    if segs == [] then Some([])
    else if segs[0] == [] then CollectCommands(segs[1..])
    else match Split(segs[0])
      case Err(_) => None
      case Ok(toks) =>
        match CollectCommands(segs[1..])
        case None => None
        case Some(rest) => Some((if toks == [] then [] else SegmentCommands(toks)) + rest)
  }

  /** `_extract_commands(command_string)` */
  function ExtractCommands(s: string): seq<string> {
    match CollectCommands(SegmentsOf(s))
    case None => []
    case Some(cmds) => cmds
  }

  // ----- the machine -----

  /** A token that is not a command word adds nothing; only an operator
      changes the state. */
  lemma SkipToken(toks: seq<string>, expectCommand: bool)
    requires toks != [] && !IsCommandWord(toks[0])
    ensures CommandsFrom(toks, expectCommand)
      == CommandsFrom(toks[1..], toks[0] in Operators || expectCommand)
  {
  }

  lemma {:induction false} NoCommandWordNoCommands(toks: seq<string>, expectCommand: bool)
    requires forall j :: 0 <= j < |toks| ==> !IsCommandWord(toks[j])
    ensures CommandsFrom(toks, expectCommand) == []
    decreases |toks|
  {
    if toks != [] {
      SkipToken(toks, expectCommand);
      assert forall j :: 0 <= j < |toks[1..]| ==> toks[1..][j] == toks[j + 1];
      NoCommandWordNoCommands(toks[1..], toks[0] in Operators || expectCommand);
    }
  }

  lemma {:induction false} FirstCommandWordNamed(toks: seq<string>, j: nat)
    requires j < |toks| && IsCommandWord(toks[j])
    requires forall k :: 0 <= k < j ==> !IsCommandWord(toks[k])
    ensures CommandsFrom(toks, true) != []
    ensures CommandsFrom(toks, true)[0] == Basename(toks[j])
    decreases j
  {
    if j > 0 {
      SkipToken(toks, true);
      assert forall k :: 0 <= k < j - 1 ==> toks[1..][k] == toks[k + 1];
      FirstCommandWordNamed(toks[1..], j - 1);
    }
  }

  lemma {:induction false} SomeCommandWordSomeCommand(toks: seq<string>, j: nat)
    requires j < |toks| && IsCommandWord(toks[j])
    ensures CommandsFrom(toks, true) != []
    decreases j
  {
    if !IsCommandWord(toks[0]) {
      SkipToken(toks, true);
      assert toks[1..][j - 1] == toks[j];
      SomeCommandWordSomeCommand(toks[1..], j - 1);
    }
  }

  /** A segment adds a command exactly when it holds a command word: a
      segment of only flags, keywords, assignments and operators adds none. */
  lemma SegmentCommandsEmptyIff(toks: seq<string>)
    ensures SegmentCommands(toks) == [] <==>
      forall j :: 0 <= j < |toks| ==> !IsCommandWord(toks[j])
  {
    if forall j :: 0 <= j < |toks| ==> !IsCommandWord(toks[j]) {
      NoCommandWordNoCommands(toks, true);
    } else {
      var j :| 0 <= j < |toks| && IsCommandWord(toks[j]);
      SomeCommandWordSomeCommand(toks, j);
    }
  }

  /** The first name of a segment is the basename of its first command word,
      whatever flags, keywords and assignments precede it. */
  lemma SegmentFirstCommand(toks: seq<string>, j: nat)
    requires j < |toks| && IsCommandWord(toks[j])
    requires forall k :: 0 <= k < j ==> !IsCommandWord(toks[k])
    ensures SegmentCommands(toks) != [] && SegmentCommands(toks)[0] == Basename(toks[j])
  {
    FirstCommandWordNamed(toks, j);
  }

  // ----- the segment loop -----

  /** Names that come from some command word of the tokens of `seg`. */
  ghost predicate NamedIn(seg: string, c: string) {
    Split(seg).Ok? && NamesCommandWord(Split(seg).value, c)
  }

  lemma {:induction false} CollectFailsOnBadSegment(segs: seq<string>, k: nat)
    requires k < |segs| && Split(segs[k]).Err?
    ensures CollectCommands(segs) == None
    decreases |segs|
  {
    if segs[0] == [] {
      assert Split(segs[0]) == Ok([]);
      CollectFailsOnBadSegment(segs[1..], k - 1);
    } else if Split(segs[0]).Ok? {
      CollectFailsOnBadSegment(segs[1..], k - 1);
    }
  }

  lemma SegmentNamed(seg: string, c: string)
    requires Split(seg).Ok? && c in SegmentCommands(Split(seg).value)
    ensures NamedIn(seg, c)
  {
    CommandsFromProvenance(Split(seg).value, true);
  }

  lemma {:induction false} CollectProvenance(segs: seq<string>, c: string)
    requires CollectCommands(segs).Some? && c in CollectCommands(segs).value
    ensures exists k :: 0 <= k < |segs| && NamedIn(segs[k], c)
    decreases |segs|
  {
    var r := CollectCommands(segs).value;
    if segs[0] == [] {
      assert r == CollectCommands(segs[1..]).value;
      CollectProvenance(segs[1..], c);
      var k :| 0 <= k < |segs[1..]| && NamedIn(segs[1..][k], c);
      assert segs[1..][k] == segs[k + 1];
    } else {
      var toks := Split(segs[0]).value;
      var here := if toks == [] then [] else SegmentCommands(toks);
      var rest := CollectCommands(segs[1..]).value;
      assert r == here + rest;
      if c in here {
        SegmentNamed(segs[0], c);
      } else {
        assert c in rest;
        CollectProvenance(segs[1..], c);
        var k :| 0 <= k < |segs[1..]| && NamedIn(segs[1..][k], c);
        assert segs[1..][k] == segs[k + 1];
      }
    }
  }

  /** Fail-closed: if any `;`-segment has an unterminated quote or a
      trailing backslash, no command is extracted at all, even from the
      segments that parsed. */
  lemma ExtractFailsOnBadSegment(s: string, k: nat)
    requires k < |SegmentsOf(s)| && Split(SegmentsOf(s)[k]).Err?
    ensures ExtractCommands(s) == []
  {
    CollectFailsOnBadSegment(SegmentsOf(s), k);
  }

  /** Every extracted name is the basename of a command word (not an
      operator, keyword, flag or assignment) of one of the segments. */
  lemma ExtractProvenance(s: string, c: string)
    requires c in ExtractCommands(s)
    ensures exists k :: 0 <= k < |SegmentsOf(s)| && NamedIn(SegmentsOf(s)[k], c)
  {
    CollectProvenance(SegmentsOf(s), c);
  }

  /** A blank command string (empty or whitespace only) yields no command. */
  lemma ExtractBlank(s: string)
    requires AllPySpace(s)
    ensures ExtractCommands(s) == []
  {
    assert ';' !in s;
    NoSemicolonOnePiece(s);
    assert SegmentsOf(s) == [[]];
    var blank: seq<string> := [[]];
    assert blank[1..] == [];
  }
}
