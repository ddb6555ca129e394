/** The first cut of a command string: `re.split` with the pattern
    `(?<!["'])\s*;\s*(?!["'])` and then `strip()` of every piece.

    The look-behind tests the character before the match and the
    look-ahead the character after it; since the whitespace runs around a
    `;` may shrink to nothing, a `;` is a cut exactly when neither of its
    two neighbours is a quote character. The whitespace the match swallows
    is whitespace the `strip()` removes anyway, so cutting at the `;` alone
    and stripping afterwards gives the same segments. Quoting is otherwise
    ignored: a `;` inside `"a;b"` is a cut. */
module Segments {
  import opened Text
  import opened Shlex

  /** Whether the `;` at index `i` is where `re.split` cuts. */
  predicate IsCut(s: string, i: int)
    requires 0 <= i < |s|
  {
    && s[i] == ';'
    && !(i > 0 && IsQuote(s[i - 1]))
    && !(i + 1 < |s| && IsQuote(s[i + 1]))
  }

  /** The pieces of `s[start..]`, scanning for cuts from index `i`. */
  function PiecesFrom(s: string, start: nat, i: nat): (r: seq<string>)
    requires start <= i <= |s|
    ensures |r| >= 1
    decreases |s| - i
  {
    if i == |s| then [s[start..]]
    else if IsCut(s, i) then [s[start..i]] + PiecesFrom(s, i + 1, i + 1)
    else PiecesFrom(s, start, i + 1)
  }

  /** `re.split(pattern, s)`, up to whitespace around each cut. */
  function Pieces(s: string): seq<string> {
    PiecesFrom(s, 0, 0)
  }

  /** The segments `_extract_commands` tokenises: the pieces, stripped. */
  function SegmentsOf(s: string): (r: seq<string>)
    ensures |r| == |Pieces(s)|
  {
    var p := Pieces(s);
    seq(|p|, k requires 0 <= k < |p| => Strip(p[k]))
  }

  /** Pieces glued back together with `;`. */
  function JoinSemicolons(ps: seq<string>): string
    requires |ps| >= 1
  {
    if |ps| == 1 then ps[0] else ps[0] + ";" + JoinSemicolons(ps[1..])
  }

  /** The number of cuts in `s[i..]`. */
  function CutsFrom(s: string, i: nat): nat
    requires i <= |s|
    decreases |s| - i
  {
    if i == |s| then 0 else (if IsCut(s, i) then 1 else 0) + CutsFrom(s, i + 1)
  }

  lemma {:induction false} PiecesFromJoin(s: string, start: nat, i: nat)
    requires start <= i <= |s|
    ensures JoinSemicolons(PiecesFrom(s, start, i)) == s[start..]
    ensures |PiecesFrom(s, start, i)| == 1 + CutsFrom(s, i)
    decreases |s| - i
  {
    if i == |s| {
    } else if IsCut(s, i) {
      PiecesFromJoin(s, i + 1, i + 1);
      var rest := PiecesFrom(s, i + 1, i + 1);
      assert ([s[start..i]] + rest)[1..] == rest;
      assert s[start..] == s[start..i] + ";" + s[i + 1..];
    } else {
      PiecesFromJoin(s, start, i + 1);
    }
  }

  /** Nothing is lost by the cut: the pieces joined with `;` give back the
      command string, and there is one piece more than there are cuts. */
  lemma PiecesJoin(s: string)
    ensures JoinSemicolons(Pieces(s)) == s
    ensures |Pieces(s)| == 1 + CutsFrom(s, 0)
  {
    PiecesFromJoin(s, 0, 0);
  }

  lemma {:induction false} NoSemicolonFrom(s: string, i: nat)
    requires i <= |s| && ';' !in s
    ensures PiecesFrom(s, 0, i) == [s]
    decreases |s| - i
  {
    if i < |s| {
      assert s[i] in s;
      NoSemicolonFrom(s, i + 1);
    } else {
      assert s[0..] == s;
    }
  }

  /** A command string without `;` is a single piece. */
  lemma NoSemicolonOnePiece(s: string)
    requires ';' !in s
    ensures Pieces(s) == [s]
    ensures SegmentsOf(s) == [Strip(s)]
  {
    NoSemicolonFrom(s, 0);
  }

  lemma {:induction false} NoCutBetween(s: string, start: nat, i: nat, j: nat)
    requires start <= i <= j <= |s|
    requires forall k :: i <= k < j ==> s[k] != ';'
    ensures PiecesFrom(s, start, i) == PiecesFrom(s, start, j)
    decreases j - i
  {
    if i < j {
      NoCutBetween(s, start, i + 1, j);
    }
  }

  /** A single `;` with no quote beside it cuts the string in two. */
  lemma CutOncePieces(a: string, b: string)
    requires ';' !in a && ';' !in b
    requires a == [] || !IsQuote(a[|a| - 1])
    requires b == [] || !IsQuote(b[0])
    ensures Pieces(a + ";" + b) == [a, b]
  {
    var s := a + ";" + b;
    var n := |a|;
    assert forall k :: 0 <= k < n ==> s[k] == a[k];
    assert forall k :: n + 1 <= k < |s| ==> s[k] == b[k - n - 1];
    NoCutBetween(s, 0, 0, n);
    assert IsCut(s, n);
    assert PiecesFrom(s, 0, n) == [s[0..n]] + PiecesFrom(s, n + 1, n + 1);
    NoCutBetween(s, n + 1, n + 1, |s|);
    assert PiecesFrom(s, n + 1, |s|) == [s[n + 1..]];
    assert s[0..n] == a;
    assert s[n + 1..] == b;
  }

  /** The segments of `a;b` are `a` and `b`, stripped. */
  lemma CutOnce(a: string, b: string)
    requires ';' !in a && ';' !in b
    requires a == [] || !IsQuote(a[|a| - 1])
    requires b == [] || !IsQuote(b[0])
    ensures SegmentsOf(a + ";" + b) == [Strip(a), Strip(b)]
  {
    CutOncePieces(a, b);
  }

  /** A `;` right after a quote is not a cut: with no other `;`, the string
      stays one piece, whatever the quote belongs to. */
  lemma QuoteBeforeSemicolonNoCut(a: string, b: string)
    requires ';' !in a && ';' !in b
    requires a != [] && IsQuote(a[|a| - 1])
    ensures Pieces(a + ";" + b) == [a + ";" + b]
    ensures SegmentsOf(a + ";" + b) == [Strip(a + ";" + b)]
  {
    var s := a + ";" + b;
    var n := |a|;
    assert forall k :: 0 <= k < n ==> s[k] == a[k];
    assert forall k :: n + 1 <= k < |s| ==> s[k] == b[k - n - 1];
    NoCutBetween(s, 0, 0, n);
    assert !IsCut(s, n) by {
      assert s[n - 1] == a[n - 1];
    }
    assert PiecesFrom(s, 0, n) == PiecesFrom(s, 0, n + 1);
    NoCutBetween(s, 0, n + 1, |s|);
    assert s[0..] == s;
  }
}
