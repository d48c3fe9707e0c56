/**
 * Grouping of mutation records by gene, patient and protein change, and the
 * unique and duplicate counts built on it.
 */
module MutationCounts {
  import opened Wrappers
  import opened Collections
  import opened Mutations

  /** The grouped records: a dictionary from grouping key to records, in first-seen key order. */
  type Grouping = seq<Group<string, Mutation>>

  /**
   * Files every record under its grouping key. The keys are distinct and in
   * order of first appearance, looking up a key yields exactly the records
   * that have it, in input order (undefined for a key no record has), and no
   * record is lost.
   */
  function GroupMutationsByGeneAndPatientAndProteinChange(ms: seq<Mutation>): (g: Grouping)
    ensures DistinctSeq(Keys(g))
    ensures forall k :: Find(g, k) == if Select(ms, GroupingKey, k) == [] then None else Some(Select(ms, GroupingKey, k))
    ensures TotalSize(g) == |ms|
    ensures forall i :: 0 <= i < |g| ==> g[i].key in Image(ms, GroupingKey)
    ensures forall i, j :: 0 <= i < j < |g| ==> FirstIndex(ms, GroupingKey, g[i].key) < FirstIndex(ms, GroupingKey, g[j].key)
  {
    GroupByFirsts(ms, GroupingKey);
    DistinctByOrder(ms, GroupingKey);
    assert forall i :: 0 <= i < |GroupBy(ms, GroupingKey)| ==>
      GroupBy(ms, GroupingKey)[i].key == Keys(GroupBy(ms, GroupingKey))[i] == Image(DistinctBy(ms, GroupingKey), GroupingKey)[i];
    GroupByKeys(ms, GroupingKey);
    GroupByFindAll(ms, GroupingKey);
    GroupByTotal(ms, GroupingKey);
    GroupBy(ms, GroupingKey)
  }

  /** The number of extra records beyond one per group. */
  function CountDuplicateMutations(g: Grouping): (n: nat)
    ensures n <= TotalSize(g)
    ensures (forall i :: 0 <= i < |g| ==> g[i].members != []) ==> n + |g| == TotalSize(g)
  {
    if g == [] then 0
    else
      var size := |g[0].members|;
      (if size > 1 then size - 1 else 0) + CountDuplicateMutations(g[1..])
  }

  /** The number of groups: the number of distinct grouping keys among the records. */
  function CountUniqueMutations(ms: seq<Mutation>): (n: nat)
    ensures n == |set m | m in ms :: GroupingKey(m)|
    ensures n <= |ms|
  {
    var g := GroupMutationsByGeneAndPatientAndProteinChange(ms);
    GroupByCount(ms, GroupingKey);
    GroupByFirsts(ms, GroupingKey);
    assert CountDuplicateMutations(g) + |g| == |ms|;
    assert (set m | m in ms :: GroupingKey(m)) == KeySet(ms, GroupingKey);
    |g|
  }

  /** On a grouping of records, the unique and the duplicate counts together account for every record. */
  lemma DuplicatesOfGrouping(ms: seq<Mutation>)
    ensures CountDuplicateMutations(GroupMutationsByGeneAndPatientAndProteinChange(ms)) == |ms| - CountUniqueMutations(ms)
  {
    GroupByFirsts(ms, GroupingKey);
  }

  /**
   * The string key keeps gene, patient and protein change apart as long as
   * neither the symbol nor the patient id contains the separator.
   */
  lemma {:induction false} SplitAtSeparator(a: string, b: string, c: string, d: string)
    requires Separator !in a && Separator !in c
    requires a + [Separator] + b == c + [Separator] + d
    ensures a == c && b == d
  {
    var x := a + [Separator] + b;
    assert forall i :: 0 <= i < |a| ==> x[i] == a[i];
    assert forall i :: 0 <= i < |c| ==> x[i] == c[i];
    assert x[|a|] == Separator && x[|c|] == Separator;
    assert |a| == |c|;
    assert a == x[..|a|];
    assert c == (c + [Separator] + d)[..|c|];
    assert b == x[|a| + 1..];
    assert d == (c + [Separator] + d)[|c| + 1..];
  }

  /**
   * Two records fall into the same group exactly when they agree on gene
   * symbol, patient id and protein change, provided no symbol or patient id
   * contains the separator.
   */
  lemma GroupingKeyInjective(a: Mutation, b: Mutation)
    requires Separator !in a.gene.hugoGeneSymbol && Separator !in a.patientId
    requires Separator !in b.gene.hugoGeneSymbol && Separator !in b.patientId
    ensures GroupingKey(a) == GroupingKey(b) <==>
      a.gene.hugoGeneSymbol == b.gene.hugoGeneSymbol && a.patientId == b.patientId && a.proteinChange == b.proteinChange
  {
    var s := [Separator];
    assert GroupingKey(a) == a.gene.hugoGeneSymbol + s + (a.patientId + s + a.proteinChange);
    assert GroupingKey(b) == b.gene.hugoGeneSymbol + s + (b.patientId + s + b.proteinChange);
    if GroupingKey(a) == GroupingKey(b) {
      SplitAtSeparator(a.gene.hugoGeneSymbol, a.patientId + s + a.proteinChange,
                       b.gene.hugoGeneSymbol, b.patientId + s + b.proteinChange);
      SplitAtSeparator(a.patientId, a.proteinChange, b.patientId, b.proteinChange);
    }
  }

  /** Without that proviso the key is ambiguous: a symbol containing the separator collides with a different patient and protein change. */
  lemma SeparatorInSymbolCollides(m: Mutation)
    requires m.gene.hugoGeneSymbol == "TP53_P1" && m.patientId == "D66B" && m.proteinChange == "X"
    ensures GroupingKey(m) == GroupingKey(m.(gene := SymbolOnly("TP53"), patientId := "P1", proteinChange := "D66B_X"))
  {
  }
}
