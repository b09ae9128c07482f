/** `parse_sheet_name_nice` (app.py): the class label shown for a sheet whose
    name reads like "3_Enfermagem". */
module SheetName {
  import opened Wrappers
  import opened Text
  import opened Replace
  import opened Search

  /** The group captured by `re.match(r"\s*(\d+)[ºª]?", name)`, or None when
      there is no match. The optional ordinal sign after the digits never
      changes the group, so it is not looked at. */
  function LeadingNumber(name: string): (r: Option<string>)
    ensures r.Some? ==> r.value != [] && forall i :: 0 <= i < |r.value| ==> InClass(r.value[i], Digit)
  {
    var rest := DropRun(name, Whitespace);
    var tail := DropRun(rest, Digit);
    if |tail| == |rest| then None else Some(rest[..|rest| - |tail|])
  }

  /** `re.split(r"[_\s-]+", t, maxsplit=1)`: the text before the first run of
      separators, and, when there is one, the text after that run. */
  function SplitOnce(t: string): (parts: seq<string>)
    ensures |parts| == 1 || |parts| == 2
    ensures |parts| == 1 <==> forall i :: 0 <= i < |t| ==> !InClass(t[i], NameSeparator)
    ensures |parts| == 1 ==> parts[0] == t
    ensures forall i :: 0 <= i < |parts[0]| ==> !InClass(parts[0][i], NameSeparator)
    ensures |parts| == 2 ==> parts[1] == [] || !InClass(parts[1][0], NameSeparator)
  {
    match FirstIndex(t, (c: char) => InClass(c, NameSeparator), 0, |t|)
    case None => [t]
    case Some(k) => [t[..k], DropRun(t[k..], NameSeparator)]
  }

  /** Characters `str.title()` treats as cased, within ASCII and Latin-1. */
  predicate IsCased(c: char) {
    ('A' <= c <= 'Z') || ('a' <= c <= 'z')
    || ('\U{C0}' <= c <= '\U{FF}' && c != '\U{D7}' && c != '\U{F7}')
    || c == '\U{AA}' || c == '\U{B5}' || c == '\U{BA}'
  }

  function ToUpperChar(c: char): char {
    if ('a' <= c <= 'z') || ('\U{E0}' <= c <= '\U{FE}' && c != '\U{F7}') then (c as int - 32) as char else c
  }

  function ToLowerChar(c: char): char {
    if ('A' <= c <= 'Z') || ('\U{C0}' <= c <= '\U{DE}' && c != '\U{D7}') then (c as int + 32) as char else c
  }

  /** `s.title()`: a character right after a cased one is lowered, any other
      is raised. */
  function Title(s: string): (r: string)
    ensures |r| == |s|
  {
    seq(|s|, i requires 0 <= i < |s| =>
      if i > 0 && IsCased(s[i - 1]) then ToLowerChar(s[i]) else ToUpperChar(s[i]))
  }

  /** `serie`: the ordinal grade, or the raw name without one. */
  function Grade(name: string): string {
    match LeadingNumber(name)
    case Some(d) => d + "ª Série"
    case None => name
  }

  /** The vocational-track prefix of every course name. */
  const CoursePrefix: string := "Técnico em "

  /** `curso`: the course named by what follows the first separator run, or
      the raw name when nothing does. */
  function Course(name: string): string {
    var parts := SplitOnce(Strip(name));
    if |parts| > 1 then CoursePrefix + Title(ReplaceAll(parts[1], "_", " ")) else name
  }

  /** `parse_sheet_name_nice`: both results are the combined label. */
  function ParseSheetNameNice(name: string): (r: (string, string))
    ensures r.0 == r.1
    ensures r.0 == Grade(name) + " / " + Course(name)
    ensures StartsWith(r.0, Grade(name) + " / ")
  {
    var combined := Grade(name) + " / " + Course(name);
    assert combined[..|Grade(name) + " / "|] == Grade(name) + " / ";
    (combined, combined)
  }

  // ---------------------------------------------------------------- lemmas

  /** A number is found exactly when a digit follows the leading whitespace:
      then it is the whole digit run there. */
  lemma LeadingNumberFound(name: string) returns (ws: nat)
    requires LeadingNumber(name).Some?
    ensures var d := LeadingNumber(name).value;
      && ws + |d| <= |name|
      && (forall j :: 0 <= j < ws ==> IsSpace(name[j]))
      && name[ws..ws + |d|] == d
      && (ws + |d| == |name| || !InClass(name[ws + |d|], Digit))
  {
    var rest := DropRun(name, Whitespace);
    var tail := DropRun(rest, Digit);
    var n := |rest| - |tail|;
    ws := |name| - |rest|;
    assert rest == name[ws..];
    SliceOfSuffix(name, ws, n);
    ThreePieces(name, ws, n);
    assert tail == name[ws + n..];
  }

  /** No number is found exactly when whitespace, however much of it is
      skipped, is never followed by a digit. */
  lemma LeadingNumberMissing(name: string)
    ensures LeadingNumber(name).None? <==>
      forall k :: 0 <= k < |name| && (forall j :: 0 <= j < k ==> IsSpace(name[j])) ==>
        !InClass(name[k], Digit)
  {
    if LeadingNumber(name).None? {
      NoLeadingNumber(name);
    } else {
      var ws := LeadingDigit(name);
    }
  }

  /** With a number, a digit follows the leading whitespace. */
  lemma LeadingDigit(name: string) returns (ws: nat)
    requires LeadingNumber(name).Some?
    ensures ws < |name| && (forall j :: 0 <= j < ws ==> IsSpace(name[j]))
    ensures InClass(name[ws], Digit)
  {
    var d := LeadingNumber(name).value;
    ws := LeadingNumberFound(name);
    assert name[ws] == name[ws..ws + |d|][0] == d[0];
  }

  /** Without a number, no digit follows the leading whitespace, and the
      grade is the raw sheet name. */
  lemma NoLeadingNumber(name: string)
    requires LeadingNumber(name).None?
    ensures forall k :: 0 <= k < |name| && (forall j :: 0 <= j < k ==> IsSpace(name[j])) ==>
      !InClass(name[k], Digit)
    ensures Grade(name) == name
  {
    var rest := DropRun(name, Whitespace);
    var ws := |name| - |rest|;
    assert name[ws..] == rest;
    assert DropRun(rest, Digit) == rest;
    forall k | 0 <= k < |name| && (forall j :: 0 <= j < k ==> IsSpace(name[j]))
      ensures !InClass(name[k], Digit)
    {
      if k == ws {
        assert name[k] == rest[0];
      }
    }
  }

  /** The two parts of a split are the text around the first separator run. */
  lemma SplitOnceJoin(t: string) returns (sep: string)
    requires |SplitOnce(t)| == 2
    ensures sep != [] && forall i :: 0 <= i < |sep| ==> InClass(sep[i], NameSeparator)
    ensures t == SplitOnce(t)[0] + sep + SplitOnce(t)[1]
  {
    var k := FirstIndex(t, (c: char) => InClass(c, NameSeparator), 0, |t|).value;
    var u := t[k..];
    var rest := DropRun(u, NameSeparator);
    var n := |u| - |rest|;
    assert SplitOnce(t) == [t[..k], rest];
    assert u[0] == t[k];
    sep := u[..n];
    ThreePieces(t, k, n);
  }

  lemma CaseMaps(c: char)
    ensures ToUpperChar(ToUpperChar(c)) == ToUpperChar(c)
    ensures ToLowerChar(ToLowerChar(c)) == ToLowerChar(c)
    ensures ToLowerChar(ToUpperChar(c)) == ToLowerChar(c)
    ensures IsCased(ToUpperChar(c)) == IsCased(c) && IsCased(ToLowerChar(c)) == IsCased(c)
  {
  }

  /** Title-casing twice is title-casing once. */
  lemma TitleIdempotent(s: string)
    ensures Title(Title(s)) == Title(s)
  {
    var t := Title(s);
    forall i | 0 <= i < |s| ensures Title(t)[i] == t[i] {
      CaseMaps(s[i]);
      if i > 0 { CaseMaps(s[i - 1]); }
    }
  }

  /** Title-casing changes only the case of letters. */
  lemma TitleSameLetters(s: string)
    ensures forall i :: 0 <= i < |s| ==> ToLowerChar(Title(s)[i]) == ToLowerChar(s[i])
    ensures forall i :: 0 <= i < |s| && !IsCased(s[i]) ==> Title(s)[i] == s[i]
  {
    forall i | 0 <= i < |s| ensures ToLowerChar(Title(s)[i]) == ToLowerChar(s[i]) {
      CaseMaps(s[i]);
    }
  }

  lemma TitleNoUnderscore(s: string)
    requires '_' !in s
    ensures '_' !in Title(s)
  {
    var t := Title(s);
    forall i | 0 <= i < |t| ensures t[i] != '_' {
      assert s[i] != '_';
    }
  }

  lemma SpacedNoUnderscore(part: string)
    ensures '_' !in ReplaceAll(part, "_", " ")
  {
    ReplaceCharAt(part, '_', ' ');
    var spaced := ReplaceAll(part, "_", " ");
    forall i | 0 <= i < |spaced| ensures spaced[i] != '_' {}
  }

  /** The course name keeps no underscore: the ones in the second part become
      spaces. */
  lemma CourseHasNoUnderscore(name: string)
    requires |SplitOnce(Strip(name))| == 2
    ensures '_' !in Course(name)
  {
    CourseTextNoUnderscore(SplitOnce(Strip(name))[1]);
  }

  lemma CourseTextNoUnderscore(part: string)
    ensures '_' !in CoursePrefix + Title(ReplaceAll(part, "_", " "))
  {
    var spaced := ReplaceAll(part, "_", " ");
    SpacedNoUnderscore(part);
    TitleNoUnderscore(spaced);
    forall i | 0 <= i < |CoursePrefix| ensures CoursePrefix[i] != '_' {}
  }

  /** A name with a separator run splits around its first such run. */
  lemma SplitOnceOf(a: string, sep: string, b: string)
    requires forall i :: 0 <= i < |a| ==> !InClass(a[i], NameSeparator)
    requires sep != [] && IsRun(sep, NameSeparator)
    requires b == [] || !InClass(b[0], NameSeparator)
    ensures SplitOnce(a + sep + b) == [a, b]
  {
    var t := a + sep + b;
    var k := |a|;
    assert t[k] == sep[0];
    forall j | 0 <= j < k ensures !InClass(t[j], NameSeparator) {
      assert t[j] == a[j];
    }
    FirstIndexIs(t, (c: char) => InClass(c, NameSeparator), 0, |t|, k);
    assert t[..k] == a;
    assert t[k..] == sep + b;
    DropRunAfterRun(sep, b, NameSeparator);
    DropRunNone(b, NameSeparator);
  }

  /** The course names what follows the first separator run of the stripped
      sheet name, with its underscores read as spaces and title-cased. */
  lemma CourseOfSplit(name: string, a: string, sep: string, b: string)
    requires Strip(name) == a + sep + b
    requires forall i :: 0 <= i < |a| ==> !InClass(a[i], NameSeparator)
    requires sep != [] && IsRun(sep, NameSeparator)
    requires b == [] || !InClass(b[0], NameSeparator)
    ensures Course(name) == CoursePrefix + Title(ReplaceAll(b, "_", " "))
  {
    SplitOnceOf(a, sep, b);
  }

  /** A sheet name without any separator is its own course name. */
  lemma CourseWithoutSeparator(name: string)
    requires forall i :: 0 <= i < |Strip(name)| ==> !InClass(Strip(name)[i], NameSeparator)
    ensures Course(name) == name
  {
    assert |SplitOnce(Strip(name))| == 1;
  }
}
