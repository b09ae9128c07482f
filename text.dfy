/** Character classes and the string clean-ups of app.py: `str.strip()`,
    the regex `\s+` collapsed to one space (`normalize`), ASCII upper-casing
    and substring search (`x in s`). */
module Text {

  /** Python's `str.isspace()`, which is also the set matched by `\s` in a
      `str` regular expression. */
  predicate IsSpace(c: char) {
    c == ' ' || ('\t' <= c <= '\r') || ('\U{1C}' <= c <= '\U{1F}')
    || c == '\U{85}' || c == '\U{A0}' || c == '\U{1680}'
    || ('\U{2000}' <= c <= '\U{200A}') || c == '\U{2028}' || c == '\U{2029}'
    || c == '\U{202F}' || c == '\U{205F}' || c == '\U{3000}'
  }

  /** The character classes whose maximal runs the source rewrites. */
  datatype CharClass =
    | Whitespace      // `\s`
    | PathSeparator   // `[\\/]`
    | NameSeparator   // `[_\s-]`
    | Digit           // `\d`, ASCII digits only

  predicate InClass(c: char, cls: CharClass) {
    match cls
    case Whitespace => IsSpace(c)
    case PathSeparator => c == '/' || c == '\\'
    case NameSeparator => c == '_' || c == '-' || IsSpace(c)
    case Digit => '0' <= c <= '9'
  }

  /** Drops the maximal run of `cls` characters at the front of `s`. */
  function DropRun(s: string, cls: CharClass): (r: string)
    ensures |r| <= |s| && r == s[|s| - |r|..]
    ensures r == [] || !InClass(r[0], cls)
    ensures forall i :: 0 <= i < |s| - |r| ==> InClass(s[i], cls)
  {
    if s != [] && InClass(s[0], cls) then DropRun(s[1..], cls) else s
  }

  /** `s.lstrip()`. */
  function TrimLeft(s: string): string {
    DropRun(s, Whitespace)
  }

  /** `s.rstrip()`. */
  function TrimRight(s: string): (r: string)
    ensures |r| <= |s| && r == s[..|r|]
    ensures r == [] || !IsSpace(r[|r| - 1])
    ensures forall i :: |r| <= i < |s| ==> IsSpace(s[i])
  {
    if s != [] && IsSpace(s[|s| - 1]) then TrimRight(s[..|s| - 1]) else s
  }

  /** `s.strip()`. */
  function Strip(s: string): (r: string)
    ensures r == [] || (!IsSpace(r[0]) && !IsSpace(r[|r| - 1]))
  {
    TrimRight(TrimLeft(s))
  }

  /** What a character becomes when runs of `cls` are collapsed to `rep`. */
  function RunMark(c: char, cls: CharClass, rep: char): char {
    if InClass(c, cls) then rep else c
  }

  /** Replaces every maximal run of `cls` characters by the single character
      `rep`: `re.sub(r"<cls>+", rep, s)`. A `cls` character followed by
      another one is dropped, and the last one of each run becomes `rep`. */
  function CollapseRuns(s: string, cls: CharClass, rep: char): string
    decreases |s|
  {
    if s == [] then []
    else if InClass(s[0], cls) && |s| > 1 && InClass(s[1], cls) then CollapseRuns(s[1..], cls, rep)
    else [RunMark(s[0], cls, rep)] + CollapseRuns(s[1..], cls, rep)
  }

  /** `normalize` (app.py), on text that `unidecode` has already transliterated. */
  function Normalize(s: string): string {
    CollapseRuns(Strip(s), Whitespace, ' ')
  }

  /** What `normalize` promises: no whitespace at either end, and every
      whitespace character is a lone `' '`. */
  predicate IsNormal(t: string) {
    (t == [] || (!IsSpace(t[0]) && !IsSpace(t[|t| - 1])))
    && LoneRep(t, Whitespace, ' ')
  }

  /** Every `cls` character of `t` is `rep` and is not followed by another
      `cls` character. */
  predicate LoneRep(t: string, cls: CharClass, rep: char) {
    forall i :: 0 <= i < |t| && InClass(t[i], cls) ==>
      t[i] == rep && (i + 1 < |t| ==> !InClass(t[i + 1], cls))
  }

  /** `c` itself when it is neither in `cls` nor `rep`, nothing otherwise. */
  function KeptChar(c: char, cls: CharClass, rep: char): string {
    if InClass(c, cls) || c == rep then [] else [c]
  }

  /** The characters of `s` that are neither in `cls` nor `rep`, in order. */
  function Keep(s: string, cls: CharClass, rep: char): string {
    if s == [] then [] else KeptChar(s[0], cls, rep) + Keep(s[1..], cls, rep)
  }

  /** `str.upper()` on ASCII text (the output of `unidecode` is ASCII). */
  function Upper(s: string): (r: string)
    ensures |r| == |s|
  {
    seq(|s|, i requires 0 <= i < |s| => if 'a' <= s[i] <= 'z' then (s[i] as int - 32) as char else s[i])
  }

  predicate StartsWith(s: string, p: string) {
    |p| <= |s| && s[..|p|] == p
  }

  /** Python's `t in s` for strings. */
  predicate Contains(s: string, t: string)
    decreases |s|
  {
    StartsWith(s, t) || (s != [] && Contains(s[1..], t))
  }

  // ---------------------------------------------------------------- lemmas

  lemma {:induction false} ContainsAt(s: string, t: string) returns (k: nat)
    requires Contains(s, t)
    ensures k + |t| <= |s| && s[k..k + |t|] == t
    decreases |s|
  {
    if StartsWith(s, t) {
      k := 0;
    } else {
      var k' := ContainsAt(s[1..], t);
      k := k' + 1;
      assert s[1..][k'..k' + |t|] == s[k..k + |t|];
    }
  }

  /** ... and, conversely, an occurrence at any position makes `t in s`
      hold. */
  lemma {:induction false} AtContains(s: string, t: string, k: nat)
    requires k + |t| <= |s| && s[k..k + |t|] == t
    ensures Contains(s, t)
    decreases k
  {
    if k == 0 {
      assert StartsWith(s, t);
    } else {
      assert s[1..][k - 1..k - 1 + |t|] == t;
      AtContains(s[1..], t, k - 1);
    }
  }

  lemma {:induction false} KeepAppend(a: string, b: string, cls: CharClass, rep: char)
    ensures Keep(a + b, cls, rep) == Keep(a, cls, rep) + Keep(b, cls, rep)
    decreases |a|
  {
    if a == [] {
      assert a + b == b;
    } else {
      assert (a + b)[0] == a[0] && (a + b)[1..] == a[1..] + b;
      KeepAppend(a[1..], b, cls, rep);
    }
  }

  lemma KeepCons(c: char, s: string, cls: CharClass, rep: char)
    ensures Keep([c] + s, cls, rep) == KeptChar(c, cls, rep) + Keep(s, cls, rep)
  {
    assert ([c] + s)[1..] == s;
  }

  /** Collapsing runs starts with `rep` exactly where the input starts with a
      run, and otherwise with the input's first character. */
  lemma {:induction false} CollapseFirst(s: string, cls: CharClass, rep: char)
    ensures var r := CollapseRuns(s, cls, rep);
      (r == []) == (s == []) && (s != [] ==> r[0] == RunMark(s[0], cls, rep))
    decreases |s|
  {
    if |s| > 1 && InClass(s[0], cls) && InClass(s[1], cls) {
      CollapseFirst(s[1..], cls, rep);
    }
  }

  /** ... and ends likewise. */
  lemma {:induction false} CollapseLast(s: string, cls: CharClass, rep: char)
    requires s != []
    ensures var r := CollapseRuns(s, cls, rep);
      r != [] && r[|r| - 1] == RunMark(s[|s| - 1], cls, rep)
    decreases |s|
  {
    var tail := s[1..];
    if |s| > 1 {
      var rest := CollapseRuns(tail, cls, rep);
      CollapseLast(tail, cls, rep);
      assert tail[|tail| - 1] == s[|s| - 1];
      if !(InClass(s[0], cls) && InClass(s[1], cls)) {
        var r := CollapseRuns(s, cls, rep);
        assert r == [RunMark(s[0], cls, rep)] + rest;
        assert r[|r| - 1] == rest[|rest| - 1];
      }
    }
  }

  /** After collapsing, the only `cls` character left is `rep`, and never two
      in a row. */
  lemma {:induction false} CollapseClassChars(s: string, cls: CharClass, rep: char)
    ensures LoneRep(CollapseRuns(s, cls, rep), cls, rep)
    decreases |s|
  {
    if s != [] {
      var rest := CollapseRuns(s[1..], cls, rep);
      CollapseClassChars(s[1..], cls, rep);
      if !(InClass(s[0], cls) && |s| > 1 && InClass(s[1], cls)) {
        var r := CollapseRuns(s, cls, rep);
        CollapseFirst(s[1..], cls, rep);
        assert r == [RunMark(s[0], cls, rep)] + rest;
        forall i | 0 <= i < |r| && InClass(r[i], cls)
          ensures r[i] == rep && (i + 1 < |r| ==> !InClass(r[i + 1], cls))
        {
          if i > 0 {
            assert r[i] == rest[i - 1];
            if i + 1 < |r| { assert r[i + 1] == rest[i]; }
          } else if i + 1 < |r| {
            assert r[1] == rest[0] == RunMark(s[1], cls, rep);
          }
        }
      }
    }
  }

  /** Collapsing runs keeps every other character, in order. */
  lemma {:induction false} CollapseKeeps(s: string, cls: CharClass, rep: char)
    ensures Keep(CollapseRuns(s, cls, rep), cls, rep) == Keep(s, cls, rep)
    decreases |s|
  {
    if s != [] {
      var rest := CollapseRuns(s[1..], cls, rep);
      CollapseKeeps(s[1..], cls, rep);
      KeepCons(s[0], s[1..], cls, rep);
      assert [s[0]] + s[1..] == s;
      if !(InClass(s[0], cls) && |s| > 1 && InClass(s[1], cls)) {
        KeepCons(RunMark(s[0], cls, rep), rest, cls, rep);
      }
    }
  }

  /** A string whose `cls` characters are already lone `rep`s is unchanged. */
  lemma {:induction false} CollapseIdentity(s: string, cls: CharClass, rep: char)
    requires LoneRep(s, cls, rep)
    ensures CollapseRuns(s, cls, rep) == s
    decreases |s|
  {
    if s != [] {
      assert LoneRep(s[1..], cls, rep) by {
        forall i | 0 <= i < |s| - 1 && InClass(s[1..][i], cls)
          ensures s[1..][i] == rep && (i + 1 < |s| - 1 ==> !InClass(s[1..][i + 1], cls))
        {
          assert s[1..][i] == s[i + 1];
          if i + 1 < |s| - 1 { assert s[1..][i + 1] == s[i + 2]; }
        }
      }
      CollapseIdentity(s[1..], cls, rep);
      assert [s[0]] + s[1..] == s;
    }
  }

  /** Every character of `r` is in `cls`. */
  predicate IsRun(r: string, cls: CharClass) {
    forall i :: 0 <= i < |r| ==> InClass(r[i], cls)
  }

  /** `a` and `b` do not both have a `cls` character at the point where
      they meet, so no run of `a + b` crosses it. */
  predicate Seam(a: string, b: string, cls: CharClass) {
    a == [] || b == [] || !InClass(a[|a| - 1], cls) || !InClass(b[0], cls)
  }

  /** A leading run of `a + b` that covers all of `a` goes on into `b`. */
  lemma {:induction false} DropRunAfterRun(a: string, b: string, cls: CharClass)
    requires IsRun(a, cls)
    ensures DropRun(a + b, cls) == DropRun(b, cls)
    decreases |a|
  {
    if a != [] {
      assert InClass(a[0], cls);
      assert (a + b)[0] == a[0] && (a + b)[1..] == a[1..] + b;
      assert DropRun(a + b, cls) == DropRun(a[1..] + b, cls);
      assert IsRun(a[1..], cls) by {
        forall i | 0 <= i < |a| - 1 ensures InClass(a[1..][i], cls) {
          assert a[1..][i] == a[i + 1];
        }
      }
      DropRunAfterRun(a[1..], b, cls);
    } else {
      assert a + b == b;
    }
  }

  /** A string that does not start with `cls` keeps its whole text. */
  lemma DropRunNone(s: string, cls: CharClass)
    requires s == [] || !InClass(s[0], cls)
    ensures DropRun(s, cls) == s
  {
  }

  /** A non-empty run collapses to exactly one `rep`. */
  lemma {:induction false} CollapseOfRun(r: string, cls: CharClass, rep: char)
    requires r != [] && IsRun(r, cls)
    ensures CollapseRuns(r, cls, rep) == [rep]
    decreases |r|
  {
    if |r| > 1 {
      assert InClass(r[0], cls) && InClass(r[1], cls);
      assert IsRun(r[1..], cls) by {
        forall i | 0 <= i < |r| - 1 ensures InClass(r[1..][i], cls) {
          assert r[1..][i] == r[i + 1];
        }
      }
      CollapseOfRun(r[1..], cls, rep);
    } else {
      assert InClass(r[0], cls);
      assert CollapseRuns(r, cls, rep) == [rep] + CollapseRuns([], cls, rep);
    }
  }

  /** Collapsing works piece by piece when no run crosses the seam. */
  lemma {:induction false} CollapseAppend(a: string, b: string, cls: CharClass, rep: char)
    requires Seam(a, b, cls)
    ensures CollapseRuns(a + b, cls, rep) == CollapseRuns(a, cls, rep) + CollapseRuns(b, cls, rep)
    decreases |a|, 1
  {
    if a == [] {
      assert a + b == b;
    } else if |a| == 1 {
      CollapseAppendOfChar(a[0], b, cls, rep);
      assert a == [a[0]];
    } else {
      CollapseAppendOfLonger(a, b, cls, rep);
    }
  }

  /** The case of `CollapseAppend` where `a` is one character. */
  lemma CollapseAppendOfChar(c: char, b: string, cls: CharClass, rep: char)
    requires Seam([c], b, cls)
    ensures CollapseRuns([c] + b, cls, rep) == CollapseRuns([c], cls, rep) + CollapseRuns(b, cls, rep)
  {
    assert ([c] + b)[1..] == b;
    assert CollapseRuns([c], cls, rep) == [RunMark(c, cls, rep)] + CollapseRuns([], cls, rep);
  }

  /** One step of `CollapseRuns` on a string of two characters or more: the
      first character is dropped when it and the next are both in `cls`. */
  lemma CollapseStep(s: string, cls: CharClass, rep: char)
    requires |s| > 1
    ensures CollapseRuns(s, cls, rep)
         == (if InClass(s[0], cls) && InClass(s[1], cls) then [] else [RunMark(s[0], cls, rep)])
            + CollapseRuns(s[1..], cls, rep)
  {
  }

  lemma Assoc<T>(x: seq<T>, y: seq<T>, z: seq<T>)
    ensures x + (y + z) == x + y + z
  {
  }

  /** The case of `CollapseAppend` where `a` has two characters or more: the
      first one is decided the same way in `a` and in `a + b`. */
  lemma {:induction false} CollapseAppendOfLonger(a: string, b: string, cls: CharClass, rep: char)
    requires Seam(a, b, cls) && |a| > 1
    ensures CollapseRuns(a + b, cls, rep) == CollapseRuns(a, cls, rep) + CollapseRuns(b, cls, rep)
    decreases |a|, 0
  {
    var tail := a[1..];
    assert (a + b)[0] == a[0] && (a + b)[1] == a[1] && (a + b)[1..] == tail + b;
    assert tail[|tail| - 1] == a[|a| - 1];
    CollapseAppend(tail, b, cls, rep);
    CollapseStep(a, cls, rep);
    CollapseStep(a + b, cls, rep);
    var head := if InClass(a[0], cls) && InClass(a[1], cls) then [] else [RunMark(a[0], cls, rep)];
    Assoc(head, CollapseRuns(tail, cls, rep), CollapseRuns(b, cls, rep));
  }

  /** A maximal run between `a` and `b` becomes exactly one `rep`, and the
      text on either side is collapsed on its own. */
  lemma CollapseSplice(a: string, r: string, b: string, cls: CharClass, rep: char)
    requires r != [] && IsRun(r, cls)
    requires a == [] || !InClass(a[|a| - 1], cls)
    requires b == [] || !InClass(b[0], cls)
    ensures CollapseRuns(a + r + b, cls, rep) == CollapseRuns(a, cls, rep) + [rep] + CollapseRuns(b, cls, rep)
  {
    Assoc(a, r, b);
    assert (r + b)[0] == r[0] && InClass(r[0], cls);
    CollapseAppend(a, r + b, cls, rep);
    CollapseAppend(r, b, cls, rep);
    CollapseOfRun(r, cls, rep);
    Assoc(CollapseRuns(a, cls, rep), [rep], CollapseRuns(b, cls, rep));
  }

  lemma SliceOfSuffix<T>(s: seq<T>, a: nat, n: nat)
    requires a + n <= |s|
    ensures s[a..][..n] == s[a..a + n]
  {
  }

  /** Cutting at `k` and again `n` further on gives three pieces that join
      back into the whole. */
  lemma ThreePieces<T>(s: seq<T>, k: nat, n: nat)
    requires k + n <= |s|
    ensures s[k..][n..] == s[k + n..]
    ensures s == s[..k] + s[k..][..n] + s[k + n..]
  {
    assert s[k..] == s[k..][..n] + s[k..][n..];
  }

  /** Dropping a leading run of `cls` characters keeps the same text. */
  lemma {:induction false} DropRunKeeps(s: string, cls: CharClass, rep: char)
    ensures Keep(DropRun(s, cls), cls, rep) == Keep(s, cls, rep)
    decreases |s|
  {
    if s != [] && InClass(s[0], cls) {
      DropRunKeeps(s[1..], cls, rep);
      assert DropRun(s, cls) == DropRun(s[1..], cls);
      assert KeptChar(s[0], cls, rep) == [];
    }
  }

  /** Dropping trailing whitespace keeps the same text. */
  lemma {:induction false} TrimRightKeeps(s: string)
    ensures Keep(TrimRight(s), Whitespace, ' ') == Keep(s, Whitespace, ' ')
    decreases |s|
  {
    if s != [] && IsSpace(s[|s| - 1]) {
      var init := s[..|s| - 1];
      TrimRightKeeps(init);
      assert s == init + [s[|s| - 1]];
      KeepAppend(init, [s[|s| - 1]], Whitespace, ' ');
      assert Keep([s[|s| - 1]], Whitespace, ' ') == [];
    }
  }

  /** Stripping removes whitespace only. */
  lemma StripKeeps(s: string)
    ensures Keep(Strip(s), Whitespace, ' ') == Keep(s, Whitespace, ' ')
  {
    DropRunKeeps(s, Whitespace, ' ');
    TrimRightKeeps(TrimLeft(s));
  }

  /** `strip()` returns a slice of its input. */
  lemma StripIsSlice(s: string) returns (a: nat)
    ensures a + |Strip(s)| <= |s| && Strip(s) == s[a..a + |Strip(s)|]
  {
    var l := TrimLeft(s);
    a := |s| - |l|;
    assert l == s[a..];
  }

  /** `normalize` yields a normal string. */
  lemma NormalizeIsNormal(s: string)
    ensures IsNormal(Normalize(s))
  {
    var t := Strip(s);
    CollapseClassChars(t, Whitespace, ' ');
    if t != [] {
      CollapseFirst(t, Whitespace, ' ');
      CollapseLast(t, Whitespace, ' ');
    }
  }

  /** `strip()` leaves a string without surrounding whitespace alone. */
  lemma StripIdentity(s: string)
    requires s == [] || (!IsSpace(s[0]) && !IsSpace(s[|s| - 1]))
    ensures Strip(s) == s
  {
    assert TrimLeft(s) == s;
  }

  /** `normalize` turns a whitespace run between two normal pieces of text
      into exactly one space. */
  lemma NormalizeSplice(a: string, r: string, b: string)
    requires a != [] && b != [] && IsNormal(a) && IsNormal(b)
    requires r != [] && IsRun(r, Whitespace)
    ensures Normalize(a + r + b) == a + " " + b
  {
    var s := a + r + b;
    assert s[0] == a[0] && s[|s| - 1] == b[|b| - 1];
    StripIdentity(s);
    CollapseSplice(a, r, b, Whitespace, ' ');
    CollapseIdentity(a, Whitespace, ' ');
    CollapseIdentity(b, Whitespace, ' ');
  }

  /** A normal string is a fixed point of `normalize`. */
  lemma NormalIsFixpoint(t: string)
    requires IsNormal(t)
    ensures Normalize(t) == t
  {
    assert Strip(t) == t;
    CollapseIdentity(t, Whitespace, ' ');
  }

  /** Applying `normalize` twice is the same as applying it once. */
  lemma NormalizeIdempotent(s: string)
    ensures Normalize(Normalize(s)) == Normalize(s)
  {
    NormalizeIsNormal(s);
    NormalIsFixpoint(Normalize(s));
  }

  /** `normalize` keeps every non-whitespace character, in order. */
  lemma NormalizeKeepsText(s: string)
    ensures Keep(Normalize(s), Whitespace, ' ') == Keep(s, Whitespace, ' ')
  {
    StripKeeps(s);
    CollapseKeeps(Strip(s), Whitespace, ' ');
  }
}
