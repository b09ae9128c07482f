/** `map_columns` and its inner `pick` (app.py): which column label carries
    each semantic field. */
module FieldMapper {
  import opened Wrappers
  import opened Text
  import opened Replace
  import opened Search

  type Label = string

  /** One entry of the dictionary `norm_map`: normalised key, original label. */
  datatype Slot = Slot(key: string, column: Label)

  /** A Python dictionary as its items in insertion order. */
  type Dict = seq<Slot>

  /** `normalize(c).upper().replace(".", "")`. */
  function ColKey(c: Label): string {
    ReplaceAll(Upper(Normalize(c)), ".", "")
  }

  function Keys(d: Dict): seq<string> {
    seq(|d|, i requires 0 <= i < |d| => d[i].key)
  }

  /** `d[k]`, or None when `k` is not a key. */
  function Lookup(d: Dict, k: string): Option<Label> {
    if d == [] then None else if d[0].key == k then Some(d[0].column) else Lookup(d[1..], k)
  }

  /** `d[k] = v`: an existing key keeps its position and takes the new value;
      a new key goes at the end. */
  function Assign(d: Dict, k: string, v: Label): (r: Dict)
    ensures Keys(r) == if k in Keys(d) then Keys(d) else Keys(d) + [k]
    ensures Lookup(r, k) == Some(v)
    ensures forall k' :: k' != k ==> Lookup(r, k') == Lookup(d, k')
  {
    if d == [] then [Slot(k, v)]
    else
      assert d == [d[0]] + d[1..];
      KeysCons(d[0], d[1..]);
      LookupCons(d[0], d[1..]);
      if d[0].key == k then
        KeysCons(Slot(k, v), d[1..]);
        LookupCons(Slot(k, v), d[1..]);
        [Slot(k, v)] + d[1..]
      else
        var rest := Assign(d[1..], k, v);
        KeysCons(d[0], rest);
        LookupCons(d[0], rest);
        [d[0]] + rest
  }

  lemma KeysCons(x: Slot, rest: Dict)
    ensures Keys([x] + rest) == [x.key] + Keys(rest)
  {
    assert ([x] + rest)[1..] == rest;
  }

  lemma LookupCons(x: Slot, rest: Dict)
    ensures forall k :: Lookup([x] + rest, k) == if x.key == k then Some(x.column) else Lookup(rest, k)
  {
    assert ([x] + rest)[1..] == rest;
  }

  /** `{ColKey(c): c for c in cols}`. */
  function NormMap(cols: seq<Label>): Dict {
    if cols == [] then []
    else Assign(NormMap(cols[..|cols| - 1]), ColKey(cols[|cols| - 1]), cols[|cols| - 1])
  }

  /** Reference definition of a key's value: the last column with that key. */
  function LastWithKey(cols: seq<Label>, k: string): Option<Label> {
    if cols == [] then None
    else if ColKey(cols[|cols| - 1]) == k then Some(cols[|cols| - 1])
    else LastWithKey(cols[..|cols| - 1], k)
  }

  /** Reference definition of the key order: each key once, where it first occurs. */
  function FirstOccurrences(ks: seq<string>): seq<string> {
    if ks == [] then []
    else
      var d := FirstOccurrences(ks[..|ks| - 1]);
      if ks[|ks| - 1] in d then d else d + [ks[|ks| - 1]]
  }

  /** `[ColKey(c) for c in cols]`. */
  function ColKeys(cols: seq<Label>): seq<string> {
    if cols == [] then [] else ColKeys(cols[..|cols| - 1]) + [ColKey(cols[|cols| - 1])]
  }

  /** `pick(*cands)`: for each candidate in order, the label of the first key
      (in insertion order) that contains it. */
  function Pick(d: Dict, cands: seq<string>): (r: Option<Label>)
    ensures r.None? <==>
      forall i, j :: 0 <= i < |cands| && 0 <= j < |d| ==> !Contains(d[j].key, cands[i])
  {
    if cands == [] then None
    else
      match FirstIndex(d, (s: Slot) => Contains(s.key, cands[0]), 0, |d|)
      case Some(j) => Some(d[j].column)
      case None =>
        var r := Pick(d, cands[1..]);
        assert forall i :: 1 <= i < |cands| ==> cands[i] == cands[1..][i - 1];
        r
  }

  /** The nested early-return loops of `pick`. */
  method PickColumn(d: Dict, cands: seq<string>) returns (r: Option<Label>)
    ensures r == Pick(d, cands)
  {
    var c := 0;
    while c < |cands|
      invariant 0 <= c <= |cands|
      invariant Pick(d, cands) == Pick(d, cands[c..])
    {
      var rest := cands[c..];
      var cand := rest[0];
      var j := 0;
      while j < |d|
        invariant 0 <= j <= |d|
        invariant forall j' :: 0 <= j' < j ==> !Contains(d[j'].key, cand)
      {
        if Contains(d[j].key, cand) {
          PickHit(d, rest, j);
          return Some(d[j].column);
        }
        j := j + 1;
      }
      PickSkip(d, rest);
      assert rest[1..] == cands[c + 1..];
      c := c + 1;
    }
    return None;
  }

  /** The first key containing the first candidate decides. */
  lemma PickHit(d: Dict, cands: seq<string>, j: nat)
    requires cands != [] && j < |d| && Contains(d[j].key, cands[0])
    requires forall j' :: 0 <= j' < j ==> !Contains(d[j'].key, cands[0])
    ensures Pick(d, cands) == Some(d[j].column)
  {
    FirstIndexIs(d, (s: Slot) => Contains(s.key, cands[0]), 0, |d|, j);
  }

  /** A first candidate no key contains is skipped. */
  lemma PickSkip(d: Dict, cands: seq<string>)
    requires cands != []
    requires forall j :: 0 <= j < |d| ==> !Contains(d[j].key, cands[0])
    ensures Pick(d, cands) == Pick(d, cands[1..])
  {
    assert FirstIndex(d, (s: Slot) => Contains(s.key, cands[0]), 0, |d|).None?;
  }

  /** The six candidate lists of `map_columns`, in priority order. */
  const StudentCands: seq<string> := ["ALUNO"]
  const EnrollmentCands: seq<string> := ["MATSIGE", "MAT SIGE", "MATRICULA", "MAT "]
  const CpfCands: seq<string> := ["CPF"]
  const RgCands: seq<string> := ["RG"]
  const BirthDateCands: seq<string> := ["DTNASC", "DATA NASC", "DATA DE NASC", "NASC"]
  const FiliationCands: seq<string> := ["FILIACAO", "FILIA", "MAE", "PAI"]

  /** The dictionary `map_columns` returns, keyed "ALUNO", "MAT.SIGE", "CPF",
      "RG", "DT.NASC." and "FILIAÇÃO". */
  datatype ColumnMap = ColumnMap(
    student: Option<Label>, enrollment: Option<Label>, cpf: Option<Label>,
    rg: Option<Label>, birthDate: Option<Label>, filiation: Option<Label>)

  function MapColumns(cols: seq<Label>): ColumnMap {
    var d := NormMap(cols);
    ColumnMap(Pick(d, StudentCands), Pick(d, EnrollmentCands), Pick(d, CpfCands),
              Pick(d, RgCands), Pick(d, BirthDateCands), Pick(d, FiliationCands))
  }

  // ---------------------------------------------------------------- lemmas

  /** A picked label comes from the earliest candidate that any key contains,
      and from the first key, in insertion order, that contains it. */
  lemma {:induction false} PickFirstMatch(d: Dict, cands: seq<string>) returns (i: nat, j: nat)
    requires Pick(d, cands).Some?
    ensures i < |cands| && j < |d| && Pick(d, cands) == Some(d[j].column)
    ensures Contains(d[j].key, cands[i])
    ensures forall i', j' :: 0 <= i' < i && 0 <= j' < |d| ==> !Contains(d[j'].key, cands[i'])
    ensures forall j' :: 0 <= j' < j ==> !Contains(d[j'].key, cands[i])
    decreases |cands|
  {
    var P := (s: Slot) => Contains(s.key, cands[0]);
    match FirstIndex(d, P, 0, |d|)
    case Some(k) =>
      i, j := 0, k;
    case None =>
      var i1, j1 := PickFirstMatch(d, cands[1..]);
      i, j := i1 + 1, j1;
      assert forall i' :: 1 <= i' < |cands| ==> cands[i'] == cands[1..][i' - 1];
  }

  /** Looking a key up in `norm_map` gives the last column with that key: a
      later duplicate overwrites the value. */
  lemma {:induction false} NormMapLookup(cols: seq<Label>, k: string)
    ensures Lookup(NormMap(cols), k) == LastWithKey(cols, k)
    decreases |cols|
  {
    if cols != [] {
      NormMapLookup(cols[..|cols| - 1], k);
    }
  }

  /** The keys of `norm_map` are the column keys, each once, in the order of
      their first occurrence. */
  lemma {:induction false} NormMapKeys(cols: seq<Label>)
    ensures Keys(NormMap(cols)) == FirstOccurrences(ColKeys(cols))
    decreases |cols|
  {
    if cols != [] {
      var init := cols[..|cols| - 1];
      NormMapKeys(init);
      FirstOccurrencesSnoc(ColKeys(init), ColKey(cols[|cols| - 1]));
    }
  }

  lemma FirstOccurrencesSnoc(ks: seq<string>, k: string)
    ensures FirstOccurrences(ks + [k]) ==
      var d := FirstOccurrences(ks); if k in d then d else d + [k]
  {
    assert (ks + [k])[..|ks|] == ks;
  }

  /** Every label in `norm_map` is one of the columns, under its own key. */
  lemma {:induction false} NormMapLabels(cols: seq<Label>)
    ensures forall j :: 0 <= j < |NormMap(cols)| ==>
      NormMap(cols)[j].column in cols && ColKey(NormMap(cols)[j].column) == NormMap(cols)[j].key
    decreases |cols|
  {
    if cols != [] {
      var init := cols[..|cols| - 1];
      NormMapLabels(init);
      AssignSlots(NormMap(init), ColKey(cols[|cols| - 1]), cols[|cols| - 1]);
      forall l | l in init ensures l in cols { }
    }
  }

  lemma {:induction false} AssignSlots(d: Dict, k: string, v: Label)
    ensures forall j :: 0 <= j < |Assign(d, k, v)| ==>
      Assign(d, k, v)[j] == Slot(k, v) || Assign(d, k, v)[j] in d
    decreases |d|
  {
    if d != [] && d[0].key != k {
      AssignSlots(d[1..], k, v);
      var r := Assign(d, k, v);
      forall j | 0 <= j < |r| ensures r[j] == Slot(k, v) || r[j] in d {
        if j > 0 { assert r[j] == Assign(d[1..], k, v)[j - 1]; }
      }
    }
  }

  /** The student column is missing exactly when no normalised header
      contains "ALUNO". */
  lemma StudentColumnMissing(cols: seq<Label>, d: Dict)
    requires d == NormMap(cols)
    ensures MapColumns(cols).student.None? <==>
      forall j :: 0 <= j < |d| ==> !Contains(d[j].key, "ALUNO")
  {
    assert MapColumns(cols).student == Pick(d, StudentCands);
    PickOne(d, "ALUNO");
  }

  lemma PickOne(d: Dict, cand: string)
    ensures Pick(d, [cand]).None? <==> forall j :: 0 <= j < |d| ==> !Contains(d[j].key, cand)
  {
    var cs := [cand];
    assert forall i :: 0 <= i < |cs| ==> cs[i] == cand;
  }

  /** Every field `map_columns` finds is one of the sheet's own column labels. */
  lemma MapColumnsLabels(cols: seq<Label>, cands: seq<string>)
    ensures Pick(NormMap(cols), cands).Some? ==> Pick(NormMap(cols), cands).value in cols
  {
    if Pick(NormMap(cols), cands).Some? {
      var i, j := PickFirstMatch(NormMap(cols), cands);
      NormMapLabels(cols);
    }
  }
}
