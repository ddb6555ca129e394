/** String helpers with the meaning Python's `str` and `os.path` give them. */
module Text {
  import opened Results

  /** Python's `str.isspace()`: the characters `strip()`, `split()` and the
      regular-expression class `\s` treat as whitespace. */
  predicate IsPySpace(c: char) {
    var n := c as int;
    || (0x09 <= n <= 0x0D)
    || (0x1C <= n <= 0x20)
    || n == 0x85 || n == 0xA0 || n == 0x1680
    || (0x2000 <= n <= 0x200A)
    || n == 0x2028 || n == 0x2029 || n == 0x202F || n == 0x205F || n == 0x3000
  }

  predicate AllPySpace(s: string) {
    forall i :: 0 <= i < |s| ==> IsPySpace(s[i])
  }

  predicate NoPySpace(s: string) {
    forall i :: 0 <= i < |s| ==> !IsPySpace(s[i])
  }

  /** `s.startswith(p)` */
  predicate StartsWith(s: string, p: string) {
    |p| <= |s| && s[..|p|] == p
  }

  /** `s.endswith(p)` */
  predicate EndsWith(s: string, p: string) {
    |p| <= |s| && s[|s| - |p|..] == p
  }

  /** `sub in s` on strings, stated as an occurrence at some offset. */
  ghost predicate OccursIn(sub: string, s: string) {
    exists i :: 0 <= i <= |s| - |sub| && StartsWith(s[i..], sub)
  }

  /** `sub in s`, computed by trying every offset from the left. */
  predicate Contains(s: string, sub: string)
    decreases |s|
  {
    StartsWith(s, sub) || (s != [] && Contains(s[1..], sub))
  }

  lemma {:induction false} ContainsIsOccurrence(s: string, sub: string)
    ensures Contains(s, sub) <==> OccursIn(sub, s)
    decreases |s|
  {
    if StartsWith(s, sub) {
      assert s[0..] == s;
    } else if s == [] {
    } else {
      ContainsIsOccurrence(s[1..], sub);
      if Contains(s[1..], sub) {
        var i :| 0 <= i <= |s[1..]| - |sub| && StartsWith(s[1..][i..], sub);
        assert s[1..][i..] == s[i + 1..];
      }
      if OccursIn(sub, s) {
        var i :| 0 <= i <= |s| - |sub| && StartsWith(s[i..], sub);
        if i > 0 {
          assert s[1..][i - 1..] == s[i..];
        }
      }
    }
  }

  /** `s.lstrip()` */
  function StripStart(s: string): (r: string)
    ensures |r| <= |s|
  {
    if s != [] && IsPySpace(s[0]) then StripStart(s[1..]) else s
  }

  /** `lstrip` leaves the suffix after the leading whitespace. */
  lemma {:induction false} StripStartSuffix(s: string)
    ensures var r := StripStart(s);
      |r| <= |s| && r == s[|s| - |r|..] && AllPySpace(s[..|s| - |r|]) && (r == [] || !IsPySpace(r[0]))
    decreases |s|
  {
    if s != [] && IsPySpace(s[0]) {
      StripStartSuffix(s[1..]);
      var r := StripStart(s[1..]);
      assert s[1..][|s[1..]| - |r|..] == s[|s| - |r|..];
      assert s[..|s| - |r|] == [s[0]] + s[1..][..|s[1..]| - |r|];
    } else {
      assert s[..0] == [];
    }
  }

  /** `s.rstrip()` */
  function StripEnd(s: string): string {
    if s != [] && IsPySpace(s[|s| - 1]) then StripEnd(s[..|s| - 1]) else s
  }

  /** `rstrip` leaves the prefix before the trailing whitespace. */
  lemma {:induction false} StripEndPrefix(s: string)
    ensures var r := StripEnd(s);
      |r| <= |s| && r == s[..|r|] && AllPySpace(s[|r|..]) && (r == [] || !IsPySpace(r[|r| - 1]))
    decreases |s|
  {
    if s != [] && IsPySpace(s[|s| - 1]) {
      var init := s[..|s| - 1];
      StripEndPrefix(init);
      var r := StripEnd(init);
      assert init[..|r|] == s[..|r|];
      assert s[|r|..] == init[|r|..] + [s[|s| - 1]];
    } else {
      assert s[|s|..] == [];
    }
  }

  /** `s.strip()`: a slice of `s` starting after its leading whitespace,
      with only whitespace after it and none at either of its ends; empty
      exactly when `s` is all whitespace. */
  function Strip(s: string): (r: string)
    ensures var a := |s| - |StripStart(s)|;
      a + |r| <= |s| && r == s[a..a + |r|] && AllPySpace(s[..a]) && AllPySpace(s[a + |r|..])
    ensures r == [] || (!IsPySpace(r[0]) && !IsPySpace(r[|r| - 1]))
    ensures r == [] <==> AllPySpace(s)
  {
    var t := StripStart(s);
    var r := StripEnd(t);
    StripStartSuffix(s);
    StripEndPrefix(t);
    TrimmedSlice(s, t, r);
    r
  }

  /** Dropping leading whitespace and then trailing whitespace leaves a slice
      of the original, empty only if every character was whitespace. */
  lemma TrimmedSlice(s: string, t: string, r: string)
    requires |t| <= |s| && t == s[|s| - |t|..] && AllPySpace(s[..|s| - |t|])
    requires t == [] || !IsPySpace(t[0])
    requires |r| <= |t| && r == t[..|r|] && AllPySpace(t[|r|..])
    requires r == [] || !IsPySpace(r[|r| - 1])
    ensures var a := |s| - |t|;
      a + |r| <= |s| && r == s[a..a + |r|] && AllPySpace(s[..a]) && AllPySpace(s[a + |r|..])
    ensures r == [] || (!IsPySpace(r[0]) && !IsPySpace(r[|r| - 1]))
    ensures r == [] <==> AllPySpace(s)
  {
    var a := |s| - |t|;
    assert s[a + |r|..] == t[|r|..];
    if r == [] {
      assert t[0..] == t;
      AllSpaceConcat(s[..a], t);
      assert s == s[..a] + t;
    } else {
      assert r[0] == t[0] == s[a];
    }
  }

  /** `strip()` removes exactly the whitespace padding in front of a text
      whose first and last characters are not whitespace. */
  lemma StripPadded(pad: string, core: string)
    requires AllPySpace(pad)
    requires core != [] && !IsPySpace(core[0]) && !IsPySpace(core[|core| - 1])
    ensures Strip(pad + core) == core
  {
    var s := pad + core;
    var r := Strip(s);
    var a := |s| - |StripStart(s)|;
    StripStartSuffix(s);
    assert s[|pad|] == core[0];
    assert !AllPySpace(s);
    assert a == |pad|;
    assert s[|pad|..] == core;
  }

  lemma AllSpaceConcat(a: string, b: string)
    requires AllPySpace(a) && AllPySpace(b)
    ensures AllPySpace(a + b)
  {
    forall i | 0 <= i < |a + b| ensures IsPySpace((a + b)[i]) {
      if i >= |a| {
        assert (a + b)[i] == b[i - |a|];
      }
    }
  }

  /** The longest prefix of `s` holding no whitespace. */
  function TakeWord(s: string): (r: string)
    ensures r <= s && NoPySpace(r)
    ensures |r| == |s| || IsPySpace(s[|r|])
  {
    if s == [] || IsPySpace(s[0]) then [] else [s[0]] + TakeWord(s[1..])
  }

  /** `s.split()[0]`, or None where Python's `split()` returns an empty list
      (and indexing it raises IndexError): the first maximal run of
      non-whitespace characters. */
  function FirstWord(s: string): (r: Option<string>)
    ensures r.None? <==> AllPySpace(s)
    ensures r.Some? ==> r.value != [] && NoPySpace(r.value)
    ensures r.Some? ==> var t := StripStart(s);
      r.value <= t && (|r.value| == |t| || IsPySpace(t[|r.value|]))
  {
    var t := StripStart(s);
    StripStartSuffix(s);
    if t == [] then
      assert s == s[..|s| - |t|];
      None
    else
      assert t[0] == s[|s| - |t|];
      Some(TakeWord(t))
  }

  /** `os.path.basename(p)` for POSIX paths: what follows the last `/`. */
  function Basename(p: string): string {
    if p == [] || p[|p| - 1] == '/' then []
    else Basename(p[..|p| - 1]) + [p[|p| - 1]]
  }

  /** The basename is the last component: a suffix of the path with no `/`
      in it, preceded by a `/` unless it is the whole path. */
  lemma {:induction false} BasenameIsLastComponent(p: string)
    ensures var r := Basename(p);
      |r| <= |p| && r == p[|p| - |r|..] && '/' !in r && (|r| == |p| || p[|p| - |r| - 1] == '/')
    decreases |p|
  {
    if p != [] && p[|p| - 1] != '/' {
      var init := p[..|p| - 1];
      BasenameIsLastComponent(init);
      var r := Basename(init);
      var c := p[|p| - 1];
      assert Basename(p) == r + [c];
      assert init[|init| - |r|..] + [c] == p[|p| - 1 - |r|..];
      assert '/' !in r + [c] by {
        assert forall i :: 0 <= i < |r| ==> (r + [c])[i] == r[i];
      }
      assert |r| == |init| || p[|p| - |r| - 2] == init[|init| - |r| - 1];
    }
  }

  lemma {:induction false} BasenameOfSlashFree(p: string)
    requires '/' !in p
    ensures Basename(p) == p
    decreases |p|
  {
    if p != [] {
      var init := p[..|p| - 1];
      assert p[|p| - 1] in p;
      assert '/' !in init by {
        assert forall i :: 0 <= i < |init| ==> init[i] == p[i];
      }
      BasenameOfSlashFree(init);
      assert init + [p[|p| - 1]] == p;
    }
  }

  /** The basename of `dir/name` is `name` when `name` has no `/`. */
  lemma {:induction false} BasenameAfterSlash(dir: string, name: string)
    requires '/' !in name
    ensures Basename(dir + "/" + name) == name
    decreases |name|
  {
    var p := dir + "/" + name;
    if name != [] {
      var init := name[..|name| - 1];
      assert name[|name| - 1] in name;
      assert p[..|p| - 1] == dir + "/" + init;
      assert '/' !in init by {
        assert forall i :: 0 <= i < |init| ==> init[i] == name[i];
      }
      BasenameAfterSlash(dir, init);
      assert init + [name[|name| - 1]] == name;
    }
  }
}
