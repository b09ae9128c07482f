/** `replace_in_paragraph` and `replace_placeholders_doc` (app.py): placeholder
    substitution inside a word-processing document whose paragraphs are
    sequences of style runs, updated in place. */
module DocumentMerger {
  import opened Wrappers
  import opened Text
  import opened Substitution

  /** A style run: its text and its bold attribute (None: inherited from the
      paragraph style). */
  datatype Run = Run(text: string, bold: Option<bool>)

  /** A paragraph is its array of runs; the merger writes into it. */
  type Paragraph = array<Run>

  /** `"".join(run.text for run in runs)`. */
  function Concat(runs: seq<Run>): string {
    if runs == [] then "" else runs[0].text + Concat(runs[1..])
  }

  /** The runs `replace_in_paragraph` leaves: untouched when there are no runs
      or no key occurred; otherwise the substituted text in run 0, whose bold
      is switched off, and every other run emptied. */
  function ParagraphResult(runs: seq<Run>, m: Mapping): (r: seq<Run>)
    ensures |r| == |runs|
  {
    if runs == [] || !AnyHit(Concat(runs), m) then runs
    else
      seq(|runs|, i requires 0 <= i < |runs| =>
        if i == 0 then runs[0].(text := Subst(Concat(runs), m), bold := Some(false))
        else runs[i].(text := ""))
  }

  /** `replace_in_paragraph`. */
  method ReplaceInParagraph(runs: Paragraph, m: Mapping)
    modifies runs
    ensures runs[..] == ParagraphResult(old(runs[..]), m)
  {
    if runs.Length == 0 {
      return;
    }
    var full := Concat(runs[..]);
    var newText := full;
    var changed := false;
    var k := 0;
    while k < |m|
      invariant 0 <= k <= |m|
      invariant newText == Subst(full, m[..k])
      invariant changed == AnyHit(full, m[..k])
    {
      assert m[..k + 1][..k] == m[..k];
      if Contains(newText, m[k].key) {
        newText := Replace.ReplaceAll(newText, m[k].key, ValueText(m[k]));
        changed := true;
      }
      k := k + 1;
    }
    assert m[..|m|] == m;
    if changed {
      runs[0] := runs[0].(text := newText, bold := Some(false));
      var j := 1;
      while j < runs.Length
        invariant 1 <= j <= runs.Length
        invariant runs[0] == old(runs[0]).(text := newText, bold := Some(false))
        invariant forall i :: 1 <= i < j ==> runs[i] == old(runs[i]).(text := "")
        invariant forall i :: j <= i < runs.Length ==> runs[i] == old(runs[i])
      {
        runs[j] := runs[j].(text := "");
        j := j + 1;
      }
    }
  }

  // ------------------------------------------------------------ the document

  datatype Cell = Cell(paragraphs: seq<Paragraph>)
  datatype TableRow = TableRow(cells: seq<Cell>)
  datatype Table = Table(rows: seq<TableRow>)
  /** A section's header and footer paragraphs; None where accessing them
      raises, which the source swallows. */
  datatype Section = Section(header: Option<seq<Paragraph>>, footer: Option<seq<Paragraph>>)
  datatype Document = Document(paragraphs: seq<Paragraph>, tables: seq<Table>, sections: seq<Section>)

  function CellsParagraphs(cells: seq<Cell>): seq<Paragraph> {
    if cells == [] then [] else CellsParagraphs(cells[..|cells| - 1]) + cells[|cells| - 1].paragraphs
  }

  function RowsParagraphs(rows: seq<TableRow>): seq<Paragraph> {
    if rows == [] then [] else RowsParagraphs(rows[..|rows| - 1]) + CellsParagraphs(rows[|rows| - 1].cells)
  }

  function TablesParagraphs(tables: seq<Table>): seq<Paragraph> {
    if tables == [] then [] else TablesParagraphs(tables[..|tables| - 1]) + RowsParagraphs(tables[|tables| - 1].rows)
  }

  /** The paragraphs of a header or footer; none when it cannot be reached. */
  function PartParagraphs(part: Option<seq<Paragraph>>): seq<Paragraph> {
    if part.Some? then part.value else []
  }

  function SectionParagraphs(s: Section): seq<Paragraph> {
    PartParagraphs(s.header) + PartParagraphs(s.footer)
  }

  function SectionsParagraphs(sections: seq<Section>): seq<Paragraph> {
    if sections == [] then []
    else SectionsParagraphs(sections[..|sections| - 1]) + SectionParagraphs(sections[|sections| - 1])
  }

  /** Every paragraph the walker visits, in visiting order; a paragraph can
      occur more than once (a merged cell repeats in each grid column it
      spans, a linked header is its predecessor's). */
  function DocParagraphs(doc: Document): seq<Paragraph> {
    doc.paragraphs + TablesParagraphs(doc.tables) + SectionsParagraphs(doc.sections)
  }

  /** How often `p` occurs in `ps`. */
  function Count(ps: seq<Paragraph>, p: Paragraph): nat {
    if ps == [] then 0 else Count(ps[..|ps| - 1], p) + (if ps[|ps| - 1] == p then 1 else 0)
  }

  /** A paragraph's runs after `n` passes of `replace_in_paragraph`. */
  function Visited(runs: seq<Run>, m: Mapping, n: nat): (r: seq<Run>)
    ensures |r| == |runs|
  {
    if n == 0 then runs else ParagraphResult(Visited(runs, m, n - 1), m)
  }

  /** Every paragraph known to `orig` has been through as many passes as it
      occurs in `done`. */
  ghost predicate Reached(orig: map<Paragraph, seq<Run>>, m: Mapping, done: seq<Paragraph>)
    reads orig.Keys
  {
    forall p :: p in orig ==> p[..] == Visited(orig[p], m, Count(done, p))
  }

  lemma CountSnoc(ps: seq<Paragraph>, q: Paragraph, p: Paragraph)
    ensures Count(ps + [q], p) == Count(ps, p) + if q == p then 1 else 0
  {
    assert (ps + [q])[..|ps|] == ps;
  }

  /** One more pass over `q` adds one visit to `q` and none to any other
      paragraph. */
  lemma VisitedStep(runs: seq<Run>, m: Mapping, before: seq<Paragraph>, q: Paragraph, p: Paragraph,
                    now: seq<Run>, prev: seq<Run>)
    requires prev == Visited(runs, m, Count(before, p))
    requires now == if p == q then ParagraphResult(prev, m) else prev
    ensures now == Visited(runs, m, Count(before + [q], p))
  {
    CountSnoc(before, q, p);
  }

  /** `for p in ps: replace_in_paragraph(p, mapping)`. */
  method ReplaceInParagraphs(ps: seq<Paragraph>, m: Mapping,
                             ghost orig: map<Paragraph, seq<Run>>, ghost done: seq<Paragraph>)
    requires forall p :: p in ps ==> p in orig
    requires Reached(orig, m, done)
    modifies set p | p in ps
    ensures Reached(orig, m, done + ps)
  {
    var i := 0;
    assert done + ps[..0] == done;
    while i < |ps|
      invariant 0 <= i <= |ps|
      invariant Reached(orig, m, done + ps[..i])
    {
      ghost var before := done + ps[..i];
      var q := ps[i];
      label L:
      ReplaceInParagraph(q, m);
      assert done + ps[..i + 1] == before + [q];
      forall p | p in orig
        ensures p[..] == Visited(orig[p], m, Count(before + [q], p))
      {
        if p == q {
          VisitedStep(orig[p], m, before, q, p, p[..], old@L(p[..]));
        } else {
          VisitedStep(orig[p], m, before, q, p, old@L(p[..]), old@L(p[..]));
        }
      }
      i := i + 1;
    }
    assert ps[..|ps|] == ps;
  }

  /** The cells of one table row, in order. */
  method ReplaceInCells(cells: seq<Cell>, m: Mapping,
                        ghost orig: map<Paragraph, seq<Run>>, ghost done: seq<Paragraph>)
    requires forall p :: p in CellsParagraphs(cells) ==> p in orig
    requires Reached(orig, m, done)
    modifies set p | p in CellsParagraphs(cells)
    ensures Reached(orig, m, done + CellsParagraphs(cells))
  {
    var c := 0;
    assert done + CellsParagraphs(cells[..0]) == done;
    while c < |cells|
      invariant 0 <= c <= |cells|
      invariant Reached(orig, m, done + CellsParagraphs(cells[..c]))
    {
      CellsContain(cells, c);
      assert forall p :: p in cells[c].paragraphs ==> p in orig;
      ReplaceInParagraphs(cells[c].paragraphs, m, orig, done + CellsParagraphs(cells[..c]));
      CellsPrefix(cells, c);
      assert done + CellsParagraphs(cells[..c + 1])
          == done + CellsParagraphs(cells[..c]) + cells[c].paragraphs;
      c := c + 1;
    }
    assert cells[..|cells|] == cells;
  }

  /** The rows of one table, in order. */
  method ReplaceInRows(rows: seq<TableRow>, m: Mapping,
                       ghost orig: map<Paragraph, seq<Run>>, ghost done: seq<Paragraph>)
    requires forall p :: p in RowsParagraphs(rows) ==> p in orig
    requires Reached(orig, m, done)
    modifies set p | p in RowsParagraphs(rows)
    ensures Reached(orig, m, done + RowsParagraphs(rows))
  {
    var r := 0;
    assert done + RowsParagraphs(rows[..0]) == done;
    while r < |rows|
      invariant 0 <= r <= |rows|
      invariant Reached(orig, m, done + RowsParagraphs(rows[..r]))
    {
      ghost var visited := done + RowsParagraphs(rows[..r]);
      var cells := rows[r].cells;
      RowsContain(rows, r);
      assert forall p :: p in CellsParagraphs(cells) ==> p in orig;
      ReplaceInCells(cells, m, orig, visited);
      RowsPrefix(rows, r);
      assert done + RowsParagraphs(rows[..r + 1]) == visited + CellsParagraphs(cells);
      r := r + 1;
    }
    assert rows[..|rows|] == rows;
  }

  /** `for table in doc.tables: for row in table.rows: for cell in row.cells`. */
  method ReplaceInTables(tables: seq<Table>, m: Mapping,
                         ghost orig: map<Paragraph, seq<Run>>, ghost done: seq<Paragraph>)
    requires forall p :: p in TablesParagraphs(tables) ==> p in orig
    requires Reached(orig, m, done)
    modifies set p | p in TablesParagraphs(tables)
    ensures Reached(orig, m, done + TablesParagraphs(tables))
  {
    var t := 0;
    assert done + TablesParagraphs(tables[..0]) == done;
    while t < |tables|
      invariant 0 <= t <= |tables|
      invariant Reached(orig, m, done + TablesParagraphs(tables[..t]))
    {
      ghost var visited := done + TablesParagraphs(tables[..t]);
      var rows := tables[t].rows;
      TablesContain(tables, t);
      assert forall p :: p in RowsParagraphs(rows) ==> p in orig;
      ReplaceInRows(rows, m, orig, visited);
      TablesPrefix(tables, t);
      assert done + TablesParagraphs(tables[..t + 1]) == visited + RowsParagraphs(rows);
      t := t + 1;
    }
    assert tables[..|tables|] == tables;
  }

  /** One `try` block of the section loop: the paragraphs of a header or a
      footer, or nothing when reaching it raises. */
  method ReplaceInPart(part: Option<seq<Paragraph>>, m: Mapping,
                       ghost orig: map<Paragraph, seq<Run>>, ghost done: seq<Paragraph>)
    requires forall p :: p in PartParagraphs(part) ==> p in orig
    requires Reached(orig, m, done)
    modifies set p | p in PartParagraphs(part)
    ensures Reached(orig, m, done + PartParagraphs(part))
  {
    if part.Some? {
      ReplaceInParagraphs(part.value, m, orig, done);
    } else {
      assert done + [] == done;
    }
  }

  /** One section: its header, then its footer. */
  method ReplaceInSection(section: Section, m: Mapping,
                          ghost orig: map<Paragraph, seq<Run>>, ghost done: seq<Paragraph>)
    requires forall p :: p in SectionParagraphs(section) ==> p in orig
    requires Reached(orig, m, done)
    modifies set p | p in SectionParagraphs(section)
    ensures Reached(orig, m, done + SectionParagraphs(section))
  {
    ReplaceInPart(section.header, m, orig, done);
    ReplaceInPart(section.footer, m, orig, done + PartParagraphs(section.header));
    Assoc(done, PartParagraphs(section.header), PartParagraphs(section.footer));
  }

  /** `for section in doc.sections`: its header, then its footer, each skipped
      when it cannot be reached. */
  method ReplaceInSections(sections: seq<Section>, m: Mapping,
                           ghost orig: map<Paragraph, seq<Run>>, ghost done: seq<Paragraph>)
    requires forall p :: p in SectionsParagraphs(sections) ==> p in orig
    requires Reached(orig, m, done)
    modifies set p | p in SectionsParagraphs(sections)
    ensures Reached(orig, m, done + SectionsParagraphs(sections))
  {
    var s := 0;
    assert done + SectionsParagraphs(sections[..0]) == done;
    while s < |sections|
      invariant 0 <= s <= |sections|
      invariant Reached(orig, m, done + SectionsParagraphs(sections[..s]))
    {
      var section := sections[s];
      ghost var visited := done + SectionsParagraphs(sections[..s]);
      SectionsContain(sections, s);
      assert forall p :: p in SectionParagraphs(section) ==> p in orig;
      ReplaceInSection(section, m, orig, visited);
      SectionsPrefix(sections, s);
      Assoc(done, SectionsParagraphs(sections[..s]), SectionParagraphs(section));
      s := s + 1;
    }
    assert sections[..|sections|] == sections;
  }

  /** `replace_placeholders_doc`: body paragraphs, then every cell of every
      table, then each section's header and footer. Each paragraph ends up
      having been through `replace_in_paragraph` once per visit. */
  method ReplacePlaceholdersDoc(doc: Document, m: Mapping)
    requires forall p :: p in DocParagraphs(doc) ==> allocated(p)
    modifies set p | p in DocParagraphs(doc)
    ensures forall p :: p in DocParagraphs(doc) ==>
      p[..] == Visited(old(p[..]), m, Count(DocParagraphs(doc), p))
    ensures forall p :: p in DocParagraphs(doc) && Count(DocParagraphs(doc), p) == 1 ==>
      p[..] == ParagraphResult(old(p[..]), m)
    ensures forall p :: p in DocParagraphs(doc) && NoKeyIn(Concat(old(p[..])), m) ==>
      p[..] == old(p[..])
  {
    ghost var all := DocParagraphs(doc);
    ghost var orig := map p | p in all :: p[..];
    assert Reached(orig, m, []);
    assert forall p :: p in doc.paragraphs ==> p in orig;
    ReplaceInParagraphs(doc.paragraphs, m, orig, []);
    assert [] + doc.paragraphs == doc.paragraphs;
    assert forall p :: p in TablesParagraphs(doc.tables) ==> p in orig;
    ReplaceInTables(doc.tables, m, orig, doc.paragraphs);
    assert forall p :: p in SectionsParagraphs(doc.sections) ==> p in orig;
    ReplaceInSections(doc.sections, m, orig, doc.paragraphs + TablesParagraphs(doc.tables));
    assert Reached(orig, m, all);
    forall p | p in all
      ensures p[..] == Visited(old(p[..]), m, Count(all, p))
    {
      assert orig[p] == old(p[..]);
    }
    forall p | p in all && NoKeyIn(Concat(old(p[..])), m)
      ensures p[..] == old(p[..])
    {
      ParagraphWithoutKeys(old(p[..]), m);
      VisitedFixpoint(old(p[..]), m, Count(DocParagraphs(doc), p));
    }
  }

  // ---------------------------------------------------------------- lemmas

  lemma {:induction false} ConcatEmptyTail(r: seq<Run>)
    requires forall i :: 1 <= i < |r| ==> r[i].text == ""
    ensures r != [] ==> Concat(r) == r[0].text
    decreases |r|
  {
    if |r| > 1 {
      ConcatEmptyTail(r[1..]);
      assert Concat(r[1..]) == r[1].text + Concat(r[2..]);
      assert r[1..][1..] == r[2..];
    }
  }

  /** The paragraph's text afterwards is the substituted text: the
      replacement works on the runs' joined text, so a key split across runs
      is still found. */
  lemma ParagraphText(runs: seq<Run>, m: Mapping)
    requires runs != []
    ensures Concat(ParagraphResult(runs, m)) == Subst(Concat(runs), m)
  {
    var r := ParagraphResult(runs, m);
    if AnyHit(Concat(runs), m) {
      ConcatEmptyTail(r);
    } else {
      NoHitNoChange(Concat(runs), m);
    }
  }

  /** After a hit the whole text sits in the first run, which is no longer
      bold; the other runs keep their formatting but lose their text. */
  lemma ParagraphCollapsed(runs: seq<Run>, m: Mapping)
    requires runs != [] && AnyHit(Concat(runs), m)
    ensures var r := ParagraphResult(runs, m);
      && r[0].text == Concat(r) == Subst(Concat(runs), m)
      && r[0].bold == Some(false)
      && forall i :: 1 <= i < |r| ==> r[i].text == "" && r[i].bold == runs[i].bold
  {
    ConcatEmptyTail(ParagraphResult(runs, m));
  }

  /** A paragraph in which no key occurs keeps its runs, text and styles. */
  lemma ParagraphWithoutKeys(runs: seq<Run>, m: Mapping)
    requires NoKeyIn(Concat(runs), m)
    ensures ParagraphResult(runs, m) == runs
  {
    NoKeyNoHit(Concat(runs), m);
  }

  /** A paragraph the operation leaves alone stays so however often it is
      visited. */
  lemma {:induction false} VisitedFixpoint(runs: seq<Run>, m: Mapping, n: nat)
    requires ParagraphResult(runs, m) == runs
    ensures Visited(runs, m, n) == runs
  {
    if n > 0 {
      VisitedFixpoint(runs, m, n - 1);
    }
  }

  /** Every paragraph of the document is visited at least once. */
  lemma {:induction false} CountPositive(ps: seq<Paragraph>, p: Paragraph)
    requires p in ps
    ensures Count(ps, p) >= 1
    decreases |ps|
  {
    if ps[|ps| - 1] != p {
      assert p in ps[..|ps| - 1] by {
        var i :| 0 <= i < |ps| && ps[i] == p;
        assert ps[..|ps| - 1][i] == p;
      }
      CountPositive(ps[..|ps| - 1], p);
    }
  }

  lemma {:induction false} CellsContain(cells: seq<Cell>, c: nat)
    requires c < |cells|
    ensures forall p :: p in cells[c].paragraphs ==> p in CellsParagraphs(cells)
    decreases |cells|
  {
    if c < |cells| - 1 {
      CellsContain(cells[..|cells| - 1], c);
    }
  }

  lemma {:induction false} RowsContain(rows: seq<TableRow>, r: nat)
    requires r < |rows|
    ensures forall p :: p in CellsParagraphs(rows[r].cells) ==> p in RowsParagraphs(rows)
    decreases |rows|
  {
    if r < |rows| - 1 {
      RowsContain(rows[..|rows| - 1], r);
    }
  }

  // The paragraphs of a prefix one element longer.

  lemma CellsPrefix(cells: seq<Cell>, c: nat)
    requires c < |cells|
    ensures CellsParagraphs(cells[..c + 1]) == CellsParagraphs(cells[..c]) + cells[c].paragraphs
  {
    assert cells[..c + 1][..c] == cells[..c];
  }

  lemma RowsPrefix(rows: seq<TableRow>, r: nat)
    requires r < |rows|
    ensures RowsParagraphs(rows[..r + 1]) == RowsParagraphs(rows[..r]) + CellsParagraphs(rows[r].cells)
  {
    assert rows[..r + 1][..r] == rows[..r];
  }

  lemma TablesPrefix(tables: seq<Table>, t: nat)
    requires t < |tables|
    ensures TablesParagraphs(tables[..t + 1]) == TablesParagraphs(tables[..t]) + RowsParagraphs(tables[t].rows)
  {
    assert tables[..t + 1][..t] == tables[..t];
  }

  lemma SectionsPrefix(sections: seq<Section>, s: nat)
    requires s < |sections|
    ensures SectionsParagraphs(sections[..s + 1])
         == SectionsParagraphs(sections[..s]) + SectionParagraphs(sections[s])
  {
    assert sections[..s + 1][..s] == sections[..s];
  }

  lemma {:induction false} TablesContain(tables: seq<Table>, t: nat)
    requires t < |tables|
    ensures forall p :: p in RowsParagraphs(tables[t].rows) ==> p in TablesParagraphs(tables)
    decreases |tables|
  {
    if t < |tables| - 1 {
      TablesContain(tables[..|tables| - 1], t);
    }
  }

  lemma {:induction false} SectionsContain(sections: seq<Section>, s: nat)
    requires s < |sections|
    ensures forall p :: p in SectionParagraphs(sections[s]) ==> p in SectionsParagraphs(sections)
    decreases |sections|
  {
    if s < |sections| - 1 {
      SectionsContain(sections[..|sections| - 1], s);
    }
  }
}
