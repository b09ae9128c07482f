/** `build_mapping` and the substitution loop of `replace_in_paragraph`
    (app.py): the placeholder table and how a text goes through it. */
module Substitution {
  import opened Wrappers
  import opened Text
  import opened Replace

  /** One item of the mapping dictionary: a literal placeholder and its
      value, where None stands for Python's `None`. */
  datatype Entry = Entry(key: string, value: Option<string>)

  /** The mapping dictionary as its items, in insertion order. */
  type Mapping = seq<Entry>

  /** `v if v is not None else ""`. */
  function ValueText(e: Entry): string {
    if e.value.Some? then e.value.value else ""
  }

  /** One step of the loop: `if k in t: t = t.replace(k, v)`. */
  function SubstStep(t: string, e: Entry): string {
    if Contains(t, e.key) then ReplaceAll(t, e.key, ValueText(e)) else t
  }

  /** The text after every item of `m` has been applied, in order. */
  function Subst(t: string, m: Mapping): string {
    if m == [] then t else SubstStep(Subst(t, m[..|m| - 1]), m[|m| - 1])
  }

  /** The loop's `changed` flag: some key occurred in the text as it stood
      when that key's turn came. */
  predicate AnyHit(t: string, m: Mapping) {
    m != [] && (AnyHit(t, m[..|m| - 1]) || Contains(Subst(t, m[..|m| - 1]), m[|m| - 1].key))
  }

  /** No key of `m` occurs anywhere in `t`. */
  predicate NoKeyIn(t: string, m: Mapping) {
    forall i :: 0 <= i < |m| ==> !Contains(t, m[i].key)
  }

  /** `str(row[col]).strip() if col and pd.notna(row[col]) else ""`: a field
      of one spreadsheet row, where a missing cell is a missing map key and
      an empty label counts as no column, as Python's truth test does. */
  function FieldText(row: map<string, string>, col: Option<string>): (r: string)
    ensures col.None? || col.value == "" || col.value !in row ==> r == ""
    ensures col.Some? && col.value != "" && col.value in row ==> r == Strip(row[col.value])
    ensures r == [] || (!IsSpace(r[0]) && !IsSpace(r[|r| - 1]))
  {
    if col.Some? && col.value != "" && col.value in row then Strip(row[col.value]) else ""
  }

  /** The school's name, fixed in the table. */
  const SchoolName: string := "EEEP ÍCARO DE SOUSA MOREIRA"

  /** `build_mapping`: the fifteen placeholders, in the dictionary's order. */
  function BuildMapping(nome: string, matricula: string, cpf: string, rg: string, dn: string,
                        filiacao: string, serieAno: string, turmaAno: string): (m: Mapping)
    ensures |m| == 15
    ensures forall i :: 0 <= i < |m| ==> m[i].value.Some?
  {
    [ Entry("[Nome Completo do Aluno(a)]", Some(nome)),
      Entry("[Número de Matrícula]", Some(matricula)),
      Entry("[Número do RG]", Some(rg)),
      Entry("[Número do CPF]", Some(cpf)),
      Entry("[DD/MM/AAAA]", Some(dn)),
      Entry("[Nome Completo da Mãe e pai]", Some(filiacao)),
      Entry("[Nome Completo da Mãe e Nome Completo do Pai]", Some(filiacao)),
      Entry("[Série/Ano]", Some(serieAno)),
      Entry("[Turma e Ano do Ensino Médio]", Some(turmaAno)),
      Entry("[Número do CPF do Aluno(a)]", Some(cpf)),
      Entry("[Nome Completo da Escola]", Some(SchoolName)),
      Entry("[Numero de Matricula]", Some(matricula)),
      Entry("[Numero do RG]", Some(rg)),
      Entry("[Numero do CPF]", Some(cpf)),
      Entry("[Numero do CPF do Aluno(a)]", Some(cpf)) ]
  }

  // ---------------------------------------------------------------- lemmas

  /** When no key occurs at its turn, the text comes out unchanged. */
  lemma {:induction false} NoHitNoChange(t: string, m: Mapping)
    requires !AnyHit(t, m)
    ensures Subst(t, m) == t
    decreases |m|
  {
    if m != [] {
      NoHitNoChange(t, m[..|m| - 1]);
    }
  }

  /** A text in which no key occurs raises no hit and passes through
      unchanged. */
  lemma {:induction false} NoKeyNoHit(t: string, m: Mapping)
    requires NoKeyIn(t, m)
    ensures !AnyHit(t, m) && Subst(t, m) == t
    decreases |m|
  {
    if m != [] {
      var init := m[..|m| - 1];
      assert NoKeyIn(t, init) by {
        forall i | 0 <= i < |init| ensures !Contains(t, init[i].key) {
          assert init[i] == m[i];
        }
      }
      NoKeyNoHit(t, init);
      assert !Contains(t, m[|m| - 1].key);
    }
  }

  /** Substitution is sequential: the second part of a table works on the
      output of the first. */
  lemma {:induction false} SubstAppend(t: string, m1: Mapping, m2: Mapping)
    ensures Subst(t, m1 + m2) == Subst(Subst(t, m1), m2)
    decreases |m2|
  {
    if m2 == [] {
      assert m1 + m2 == m1;
    } else {
      var init := m2[..|m2| - 1];
      SubstAppend(t, m1, init);
      assert (m1 + m2)[..|m1 + m2| - 1] == m1 + init;
    }
  }

  /** A single item replaces every occurrence of its key: the text between
      occurrences is kept and each occurrence becomes the value. */
  lemma SubstOne(t: string, e: Entry)
    requires e.key != []
    ensures Subst(t, [e]) == JoinWith(SplitOn(t, e.key), ValueText(e))
  {
    assert [e][..0] == [];
    ReplaceIsSplitJoin(t, e.key, ValueText(e));
    if !Contains(t, e.key) {
      ReplaceAbsent(t, e.key, ValueText(e));
    }
  }

  /** The table's fifteen keys are distinct, so the dictionary literal
      keeps every item and the substitution order is the listed order. */
  lemma MappingKeysDistinct(nome: string, matricula: string, cpf: string, rg: string, dn: string,
                            filiacao: string, serieAno: string, turmaAno: string)
    ensures var m := BuildMapping(nome, matricula, cpf, rg, dn, filiacao, serieAno, turmaAno);
      forall i, j :: 0 <= i < j < |m| ==> m[i].key != m[j].key
  {
  }
}
