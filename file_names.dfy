/** The names app.py gives its output: one `.docx` file per student, a
    working folder and a `.zip` archive per sheet. */
module FileNames {
  import opened Text
  import opened Replace

  /** `re.sub(r"[\\/]+", "_", nome).strip().replace(" ", "_")`: each run of
      slashes and backslashes becomes one underscore, surrounding whitespace
      goes, and every remaining space becomes an underscore. */
  function SafeName(nome: string): string {
    ReplaceAll(Strip(CollapseRuns(nome, PathSeparator, '_')), " ", "_")
  }

  /** `f"Termo_{safe_nome}.docx"`. */
  function OutputFileName(nome: string): string {
    "Termo_" + SafeName(nome) + ".docx"
  }

  /** `f"termos_{normalize(selected_sheet)}".replace("/", "_")`. */
  function FolderName(sheet: string): string {
    ReplaceAll("termos_" + Normalize(sheet), "/", "_")
  }

  /** `f"termos_{normalize(selected_sheet)}.zip".replace("/", "_")`. */
  function ArchiveName(sheet: string): string {
    ReplaceAll("termos_" + Normalize(sheet) + ".zip", "/", "_")
  }

  predicate NoPathSeparator(s: string) {
    forall i :: 0 <= i < |s| ==> s[i] != '/' && s[i] != '\\'
  }

  /** A name is safe when it has no path separator, no space and no
      whitespace at either end. */
  predicate IsSafe(s: string) {
    && NoPathSeparator(s)
    && ' ' !in s
    && (s == [] || (!IsSpace(s[0]) && !IsSpace(s[|s| - 1])))
  }

  // ---------------------------------------------------------------- lemmas

  /** Collapsing runs of a class into a character outside it leaves no
      character of the class. */
  lemma CollapseClears(s: string, cls: CharClass, rep: char)
    requires !InClass(rep, cls)
    ensures forall i :: 0 <= i < |CollapseRuns(s, cls, rep)| ==> !InClass(CollapseRuns(s, cls, rep)[i], cls)
  {
    CollapseClassChars(s, cls, rep);
  }

  /** After collapsing and stripping, no path separator is left. */
  lemma StrippedHasNoSeparator(nome: string)
    ensures NoPathSeparator(Strip(CollapseRuns(nome, PathSeparator, '_')))
  {
    var collapsed := CollapseRuns(nome, PathSeparator, '_');
    CollapseClears(nome, PathSeparator, '_');
    var stripped := Strip(collapsed);
    var a := StripIsSlice(collapsed);
    forall i | 0 <= i < |stripped| ensures stripped[i] != '/' && stripped[i] != '\\' {
      assert stripped[i] == collapsed[a + i];
    }
  }

  /** Turning spaces into underscores makes a stripped name without path
      separators safe. */
  lemma SpacesReplacedSafe(t: string)
    requires NoPathSeparator(t)
    requires t == [] || (!IsSpace(t[0]) && !IsSpace(t[|t| - 1]))
    ensures IsSafe(ReplaceAll(t, " ", "_"))
  {
    ReplaceCharAt(t, ' ', '_');
    var r := ReplaceAll(t, " ", "_");
    assert forall i :: 0 <= i < |r| ==> r[i] != ' ';
  }

  /** The safe name has no path separator and no space, and does not start
      or end with whitespace. */
  lemma SafeNameIsSafe(nome: string)
    ensures IsSafe(SafeName(nome))
  {
    StrippedHasNoSeparator(nome);
    SpacesReplacedSafe(Strip(CollapseRuns(nome, PathSeparator, '_')));
  }

  /** A name that is already safe comes out unchanged. */
  lemma SafeNameOfSafe(nome: string)
    requires IsSafe(nome)
    ensures SafeName(nome) == nome
  {
    CollapseIdentity(nome, PathSeparator, '_');
    StripIdentity(nome);
    ReplaceCharAt(nome, ' ', '_');
    assert forall i :: 0 <= i < |nome| ==> nome[i] != ' ';
  }

  /** Sanitising twice is sanitising once. */
  lemma SafeNameIdempotent(nome: string)
    ensures SafeName(SafeName(nome)) == SafeName(nome)
  {
    SafeNameIsSafe(nome);
    SafeNameOfSafe(SafeName(nome));
  }

  /** The output file name names a file inside the output folder: it has no
      path separator. */
  lemma OutputFileNameFlat(nome: string)
    ensures NoPathSeparator(OutputFileName(nome))
  {
    SafeNameIsSafe(nome);
  }

  /** Turning spaces into underscores works piece by piece around an
      underscore. */
  lemma UnderscoreSplice(a: string, b: string)
    ensures ReplaceAll(a + "_" + b, " ", "_") == ReplaceAll(a, " ", "_") + "_" + ReplaceAll(b, " ", "_")
  {
    var t := a + "_" + b;
    ReplaceCharAt(t, ' ', '_');
    ReplaceCharAt(a, ' ', '_');
    ReplaceCharAt(b, ' ', '_');
    var l := ReplaceAll(t, " ", "_");
    var r := ReplaceAll(a, " ", "_") + "_" + ReplaceAll(b, " ", "_");
    forall i | 0 <= i < |l| ensures l[i] == r[i] {
      if i < |a| {
        assert t[i] == a[i];
      } else if i > |a| {
        assert t[i] == b[i - |a| - 1];
      }
    }
  }

  /** A name without path separators keeps its stripped text, with every
      space turned into an underscore. */
  lemma SafeNameWithoutSeparator(nome: string)
    requires NoPathSeparator(nome)
    ensures var t := Strip(nome);
      |SafeName(nome)| == |t|
      && forall i :: 0 <= i < |t| ==> SafeName(nome)[i] == (if t[i] == ' ' then '_' else t[i])
  {
    CollapseIdentity(nome, PathSeparator, '_');
    ReplaceCharAt(Strip(nome), ' ', '_');
  }

  /** A run of slashes and backslashes between two parts of a name becomes
      exactly one underscore, and the spaces of each part become
      underscores. */
  lemma SafeNameSplice(a: string, sep: string, b: string)
    requires NoPathSeparator(a) && NoPathSeparator(b)
    requires sep != [] && IsRun(sep, PathSeparator)
    requires a == [] || !IsSpace(a[0])
    requires b == [] || !IsSpace(b[|b| - 1])
    ensures SafeName(a + sep + b) == ReplaceAll(a, " ", "_") + "_" + ReplaceAll(b, " ", "_")
  {
    CollapseSplice(a, sep, b, PathSeparator, '_');
    CollapseIdentity(a, PathSeparator, '_');
    CollapseIdentity(b, PathSeparator, '_');
    var t := a + "_" + b;
    assert t[0] == (if a == [] then '_' else a[0]);
    assert t[|t| - 1] == (if b == [] then '_' else b[|b| - 1]);
    StripIdentity(t);
    UnderscoreSplice(a, b);
  }

  /** Appending `.zip` commutes with turning slashes into underscores. */
  lemma ZipSuffix(base: string)
    ensures ReplaceAll(base + ".zip", "/", "_") == ReplaceAll(base, "/", "_") + ".zip"
    ensures '/' !in ReplaceAll(base + ".zip", "/", "_")
  {
    ReplaceCharAt(base, '/', '_');
    ReplaceCharAt(base + ".zip", '/', '_');
    assert forall i :: 0 <= i < 4 ==> (base + ".zip")[|base| + i] == ".zip"[i];
  }

  /** The archive is named after the working folder, and neither name has a
      slash. */
  lemma ArchiveNameIsFolderName(sheet: string)
    ensures ArchiveName(sheet) == FolderName(sheet) + ".zip"
    ensures '/' !in ArchiveName(sheet)
  {
    ZipSuffix("termos_" + Normalize(sheet));
  }
}
