/** Python's `str.replace(pat, rep)`: every non-overlapping occurrence of
    `pat`, scanning left to right, becomes `rep`. */
module Replace {
  import opened Text

  /** `s.replace(pat, rep)`. An empty `pat` matches before every character
      and at the end, as in Python (`"ab".replace("", "-") == "-a-b-"`). */
  function ReplaceAll(s: string, pat: string, rep: string): string
    decreases |s|
  {
    if pat == [] then Interleave(s, rep)
    else if StartsWith(s, pat) then rep + ReplaceAll(s[|pat|..], pat, rep)
    else if s == [] then []
    else [s[0]] + ReplaceAll(s[1..], pat, rep)
  }

  function Interleave(s: string, rep: string): string {
    if s == [] then rep else rep + [s[0]] + Interleave(s[1..], rep)
  }

  /** Reference definition: `s.split(sep)` (left to right, non-overlapping). */
  function SplitOn(s: string, sep: string): (parts: seq<string>)
    requires sep != []
    ensures |parts| >= 1 && StartsWith(s, parts[0])
    decreases |s|
  {
    if StartsWith(s, sep) then [""] + SplitOn(s[|sep|..], sep)
    else if s == [] then [""]
    else
      var rest := SplitOn(s[1..], sep);
      [[s[0]] + rest[0]] + rest[1..]
  }

  /** `glue.join(parts)`. */
  function JoinWith(parts: seq<string>, glue: string): string {
    if parts == [] then ""
    else if |parts| == 1 then parts[0]
    else parts[0] + glue + JoinWith(parts[1..], glue)
  }

  // ---------------------------------------------------------------- lemmas

  lemma JoinConsHead(x: string, parts: seq<string>, glue: string)
    requires parts != []
    ensures JoinWith([x + parts[0]] + parts[1..], glue) == x + JoinWith(parts, glue)
  {
    var q := [x + parts[0]] + parts[1..];
    assert q[1..] == parts[1..];
  }

  lemma JoinConsEmpty(parts: seq<string>, glue: string)
    requires parts != []
    ensures JoinWith([""] + parts, glue) == glue + JoinWith(parts, glue)
  {
    var q := [""] + parts;
    assert q[1..] == parts;
  }

  /** No piece of a split contains the separator. */
  lemma {:induction false} SplitPiecesFree(s: string, sep: string)
    requires sep != []
    ensures forall i :: 0 <= i < |SplitOn(s, sep)| ==> !Contains(SplitOn(s, sep)[i], sep)
    decreases |s|
  {
    var parts := SplitOn(s, sep);
    if StartsWith(s, sep) {
      SplitPiecesFree(s[|sep|..], sep);
      assert !Contains("", sep);
      assert forall i :: 1 <= i < |parts| ==> parts[i] == SplitOn(s[|sep|..], sep)[i - 1];
    } else if s != [] {
      var rest := SplitOn(s[1..], sep);
      SplitPiecesFree(s[1..], sep);
      var head := [s[0]] + rest[0];
      assert head[1..] == rest[0];
      assert !Contains(head, sep);
      assert forall i :: 1 <= i < |parts| ==> parts[i] == rest[i];
    }
  }

  /** `str.replace` is split-then-join: the text between the occurrences of
      `pat` is kept and each occurrence becomes `rep`. */
  lemma {:induction false} ReplaceIsSplitJoin(s: string, pat: string, rep: string)
    requires pat != []
    ensures ReplaceAll(s, pat, rep) == JoinWith(SplitOn(s, pat), rep)
    decreases |s|
  {
    if StartsWith(s, pat) {
      var rest := s[|pat|..];
      ReplaceIsSplitJoin(rest, pat, rep);
      assert ReplaceAll(s, pat, rep) == rep + ReplaceAll(rest, pat, rep);
      assert SplitOn(s, pat) == [""] + SplitOn(rest, pat);
      JoinConsEmpty(SplitOn(rest, pat), rep);
    } else if s != [] {
      var rest := SplitOn(s[1..], pat);
      ReplaceIsSplitJoin(s[1..], pat, rep);
      assert ReplaceAll(s, pat, rep) == [s[0]] + ReplaceAll(s[1..], pat, rep);
      assert SplitOn(s, pat) == [[s[0]] + rest[0]] + rest[1..];
      JoinConsHead([s[0]], rest, rep);
    }
  }

  /** Replacing a pattern by itself changes nothing. */
  lemma {:induction false} ReplaceBySelf(s: string, pat: string)
    requires pat != []
    ensures ReplaceAll(s, pat, pat) == s
    decreases |s|
  {
    if StartsWith(s, pat) {
      ReplaceBySelf(s[|pat|..], pat);
      assert s == pat + s[|pat|..];
    } else if s != [] {
      ReplaceBySelf(s[1..], pat);
      assert s == [s[0]] + s[1..];
    }
  }

  /** Splitting and joining back with the separator is the identity. */
  lemma SplitJoinRoundTrip(s: string, sep: string)
    requires sep != []
    ensures JoinWith(SplitOn(s, sep), sep) == s
  {
    ReplaceIsSplitJoin(s, sep, sep);
    ReplaceBySelf(s, sep);
  }

  /** Replacing a pattern that does not occur changes nothing. */
  lemma {:induction false} ReplaceAbsent(s: string, pat: string, rep: string)
    requires !Contains(s, pat)
    ensures ReplaceAll(s, pat, rep) == s
    decreases |s|
  {
    if s != [] {
      ReplaceAbsent(s[1..], pat, rep);
      assert s == [s[0]] + s[1..];
    } else {
      assert pat != [] by { assert !StartsWith(s, pat); }
    }
  }

  /** Replacing one character by one character works position by position. */
  lemma {:induction false} ReplaceCharAt(s: string, c: char, d: char)
    ensures |ReplaceAll(s, [c], [d])| == |s|
    ensures forall i :: 0 <= i < |s| ==>
      ReplaceAll(s, [c], [d])[i] == (if s[i] == c then d else s[i])
    decreases |s|
  {
    if s != [] {
      ReplaceCharAt(s[1..], c, d);
      var r := ReplaceAll(s, [c], [d]);
      var rest := ReplaceAll(s[1..], [c], [d]);
      assert StartsWith(s, [c]) <==> s[0] == c;
      assert r == [if s[0] == c then d else s[0]] + rest;
    }
  }

  /** Deleting a character (`s.replace(c, "")`) leaves none of it. */
  lemma {:induction false} RemoveCharGone(s: string, c: char)
    ensures c !in ReplaceAll(s, [c], "")
    ensures |ReplaceAll(s, [c], "")| <= |s|
    decreases |s|
  {
    if s != [] {
      RemoveCharGone(s[1..], c);
      assert StartsWith(s, [c]) <==> s[0] == c;
    }
  }
}
