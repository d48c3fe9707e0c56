/**
 * De-duplication of mutation records by genomic location: the same physical
 * variant seen in several samples or profiles is kept once.
 */
module GenomicLocations {
  import opened Collections
  import opened Mutations

  /**
   * One record per distinct (chromosome, start, end, reference allele,
   * variant allele), in order of first appearance: no two kept records share
   * a location, every location of the input is kept, each kept record is the
   * first record at its location, the kept records follow the order in which
   * their locations first appear, and exactly the repeats are dropped.
   */
  function UniqueGenomicLocations(ms: seq<Mutation>): (r: seq<Mutation>)
    ensures |r| + Repeats(ms, LocationOf) == |ms|
    ensures |r| == |KeySet(ms, LocationOf)|
    ensures DistinctSeq(Image(r, LocationOf))
    ensures forall i :: 0 <= i < |ms| ==> LocationOf(ms[i]) in Image(r, LocationOf)
    ensures forall i :: 0 <= i < |r| ==>
      Select(ms, LocationOf, LocationOf(r[i])) != [] && Select(ms, LocationOf, LocationOf(r[i]))[0] == r[i]
    ensures forall i :: 0 <= i < |r| ==> LocationOf(r[i]) in Image(ms, LocationOf)
    ensures forall i, j :: 0 <= i < j < |r| ==>
      FirstIndex(ms, LocationOf, LocationOf(r[i])) < FirstIndex(ms, LocationOf, LocationOf(r[j]))
  {
    var r := DistinctBy(ms, LocationOf);
    DistinctBySize(ms, LocationOf);
    DistinctByKeys(ms, LocationOf);
    DistinctByFirst(ms, LocationOf);
    DistinctByOrder(ms, LocationOf);
    GroupByFirsts(ms, LocationOf);
    GroupByCount(ms, LocationOf);
    assert forall i :: 0 <= i < |ms| ==> LocationOf(ms[i]) in Image(r, LocationOf) by {
      forall i | 0 <= i < |ms| ensures LocationOf(ms[i]) in Image(r, LocationOf) {
        assert Image(ms, LocationOf)[i] == LocationOf(ms[i]);
        DistinctByKey(ms, LocationOf, LocationOf(ms[i]));
      }
    }
    r
  }

}
