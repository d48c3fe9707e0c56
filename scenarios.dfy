/**
 * The fixtures of the helpers' unit tests and the results the tests expect,
 * derived from the model.
 */
module Scenarios {
  import opened Wrappers
  import opened Collections
  import opened Mutations
  import opened MutationCounts
  import opened ProteinChangeCounts
  import opened MutationRates
  import opened GenomicLocations
  import opened GeneInfo

  /** A TP53 record of one sample of one patient, as the counting fixture builds them. */
  function Tp53(sampleId: string, patientId: string, pos: int, proteinChange: string): Mutation
  {
    Mutation(sampleId, patientId, SymbolOnly("TP53"), None, proteinChange, Some(pos), None, "", 0, 0, "", "")
  }

  /** Two samples each of patients P1 and P2 and one of P3 with D66B; two samples of P4 with different changes. */
  function MutationsToCount(): seq<Mutation>
  {
    [ Tp53("P1_sample1", "P1", 66, "D66B"),
      Tp53("P1_sample2", "P1", 66, "D66B"),
      Tp53("P2_sample1", "P2", 66, "D66B"),
      Tp53("P2_sample2", "P2", 66, "D66B"),
      Tp53("P3_sample1", "P3", 66, "D66B"),
      Tp53("P4_sample1", "P4", 666, "D666C"),
      Tp53("P4_sample2", "P4", 666, "D666F") ]
  }

  /** The counting fixture grouped: P1's and P2's D66B records pair up, the other three stand alone. */
  lemma CountFixtureGroups()
    ensures var ms := MutationsToCount();
      GroupMutationsByGeneAndPatientAndProteinChange(ms) ==
        [ Group("TP53_P1_D66B", ms[0..2]), Group("TP53_P2_D66B", ms[2..4]), Group("TP53_P3_D66B", [ms[4]]),
          Group("TP53_P4_D666C", [ms[5]]), Group("TP53_P4_D666F", [ms[6]]) ]
  {
    var ms := MutationsToCount();
    assert GroupingKey(ms[0]) == "TP53_P1_D66B" && GroupingKey(ms[1]) == "TP53_P1_D66B";
    assert GroupingKey(ms[2]) == "TP53_P2_D66B" && GroupingKey(ms[3]) == "TP53_P2_D66B";
    assert GroupingKey(ms[4]) == "TP53_P3_D66B";
    assert GroupingKey(ms[5]) == "TP53_P4_D666C";
    assert GroupingKey(ms[6]) == "TP53_P4_D666F";
    TwoPairsThreeSingles(ms, GroupingKey);
  }

  /** Seven elements keyed `a a b b c d e` with `a`..`e` distinct form five groups in that order. */
  lemma TwoPairsThreeSingles<K, T>(s: seq<T>, f: T -> K)
    requires |s| == 7 && f(s[1]) == f(s[0]) && f(s[3]) == f(s[2])
    requires DistinctSeq([f(s[0]), f(s[2]), f(s[4]), f(s[5]), f(s[6])])
    ensures GroupBy(s, f) ==
      [Group(f(s[0]), s[0..2]), Group(f(s[2]), s[2..4]), Group(f(s[4]), [s[4]]), Group(f(s[5]), [s[5]]), Group(f(s[6]), [s[6]])]
  {
    var ks := [f(s[0]), f(s[2]), f(s[4]), f(s[5]), f(s[6])];
    assert ks[0] != ks[1] && ks[0] != ks[2] && ks[0] != ks[3] && ks[0] != ks[4];
    assert ks[1] != ks[2] && ks[1] != ks[3] && ks[1] != ks[4];
    assert ks[2] != ks[3] && ks[2] != ks[4] && ks[3] != ks[4];
    TwoPairs(s, f);
    var a, b := Group(f(s[0]), s[0..2]), Group(f(s[2]), s[2..4]);
    GroupByNew(s, f, 4, [a, b]);
    var c := Group(f(s[4]), [s[4]]);
    assert [a, b] + [c] == [a, b, c];
    GroupByNew(s, f, 5, [a, b, c]);
    var d := Group(f(s[5]), [s[5]]);
    assert [a, b, c] + [d] == [a, b, c, d];
    GroupByNew(s, f, 6, [a, b, c, d]);
    assert s[..7] == s;
  }

  /** Four elements keyed `a a b b` with `a` and `b` distinct form two pairs. */
  lemma TwoPairs<K, T>(s: seq<T>, f: T -> K)
    requires |s| >= 4 && f(s[1]) == f(s[0]) && f(s[3]) == f(s[2]) && f(s[2]) != f(s[0])
    ensures GroupBy(s[..4], f) == [Group(f(s[0]), s[0..2]), Group(f(s[2]), s[2..4])]
  {
    assert s[..0] == [];
    GroupByNew(s, f, 0, []);
    GroupByLast(s, f, 1, [], [s[0]]);
    assert [s[0]] + [s[1]] == s[0..2];
    var a := Group(f(s[0]), s[0..2]);
    GroupByNew(s, f, 2, [a]);
    GroupByLast(s, f, 3, [a], [s[2]]);
    assert [s[2]] + [s[3]] == s[2..4];
  }

  /** An element whose key no group has opens a new group at the end. */
  lemma GroupByNew<K, T>(s: seq<T>, f: T -> K, n: nat, g: seq<Group<K, T>>)
    requires n < |s| && GroupBy(s[..n], f) == g
    requires forall i :: 0 <= i < |g| ==> g[i].key != f(s[n])
    ensures GroupBy(s[..n + 1], f) == g + [Group(f(s[n]), [s[n]])]
  {
    GroupByStep(s, f, n + 1);
    assert f(s[n]) !in Keys(g) by {
      forall i | 0 <= i < |g| ensures Keys(g)[i] != f(s[n]) {
        assert Keys(g)[i] == g[i].key;
      }
    }
    AddAbsent(g, f(s[n]), s[n]);
  }

  /** An element with the key of the last group, which no other group has, joins that group. */
  lemma GroupByLast<K, T>(s: seq<T>, f: T -> K, n: nat, g: seq<Group<K, T>>, xs: seq<T>)
    requires n < |s| && GroupBy(s[..n], f) == g + [Group(f(s[n]), xs)]
    requires forall i :: 0 <= i < |g| ==> g[i].key != f(s[n])
    ensures GroupBy(s[..n + 1], f) == g + [Group(f(s[n]), xs + [s[n]])]
  {
    GroupByStep(s, f, n + 1);
    AddToLast(g, f(s[n]), xs, s[n]);
  }

  /** Filing under the key of the last group, which no other group has, extends that group. */
  lemma {:induction false} AddToLast<K, T>(gs: seq<Group<K, T>>, k: K, xs: seq<T>, x: T)
    requires forall i :: 0 <= i < |gs| ==> gs[i].key != k
    ensures Add(gs + [Group(k, xs)], k, x) == gs + [Group(k, xs + [x])]
  {
    if gs == [] {
      assert [Group(k, xs)][1..] == [];
    } else {
      AddToLast(gs[1..], k, xs, x);
      assert (gs + [Group(k, xs)])[1..] == gs[1..] + [Group(k, xs)];
    }
  }

  /** Looking up the test's five keys gives groups of sizes 2, 2, 1, 1, 1. */
  lemma CountFixtureLookups()
    ensures var g := GroupMutationsByGeneAndPatientAndProteinChange(MutationsToCount());
      |FindOrEmpty(g, "TP53_P1_D66B")| == 2 && |FindOrEmpty(g, "TP53_P2_D66B")| == 2 &&
      |FindOrEmpty(g, "TP53_P3_D66B")| == 1 && |FindOrEmpty(g, "TP53_P4_D666C")| == 1 &&
      |FindOrEmpty(g, "TP53_P4_D666F")| == 1
  {
    var g := GroupMutationsByGeneAndPatientAndProteinChange(MutationsToCount());
    CountFixtureGroups();
    FindAt(g, 0);
    FindAt(g, 1);
    FindAt(g, 2);
    FindAt(g, 3);
    FindAt(g, 4);
  }

  /** The counting fixture holds five unique records and two duplicates. */
  lemma CountFixtureUniqueAndDuplicates()
    ensures CountUniqueMutations(MutationsToCount()) == 5
    ensures CountDuplicateMutations(GroupMutationsByGeneAndPatientAndProteinChange(MutationsToCount())) == 2
  {
    CountFixtureGroups();
    DuplicatesOfGrouping(MutationsToCount());
  }

  /** With no records there is nothing unique, nothing duplicated and no table entry. */
  lemma EmptyCounts()
    ensures CountUniqueMutations([]) == 0
    ensures CountDuplicateMutations([]) == 0
    ensures CountMutationsByProteinChange([]) == []
  {
  }

  /** The test's expected table: D66B five times, then D666C and D666F once each, in first-seen order. */
  lemma CountFixtureTable()
    ensures CountMutationsByProteinChange(MutationsToCount()) ==
      [ProteinChangeCount("D66B", 5), ProteinChangeCount("D666C", 1), ProteinChangeCount("D666F", 1)]
  {
    CountFixtureTally();
    SortFixtureTally();
  }

  lemma SortFixtureTally()
    ensures var t := [ProteinChangeCount("D66B", 5), ProteinChangeCount("D666C", 1), ProteinChangeCount("D666F", 1)];
      SortByCountDescending(t) == t
  {
    var t := [ProteinChangeCount("D66B", 5), ProteinChangeCount("D666C", 1), ProteinChangeCount("D666F", 1)];
    assert SortByCountDescending(t[2..]) == [t[2]];
    assert SortByCountDescending(t[1..]) == [t[1], t[2]];
  }

  lemma CountFixtureTally()
    ensures ProteinChangeTally(MutationsToCount()) ==
      [ProteinChangeCount("D66B", 5), ProteinChangeCount("D666C", 1), ProteinChangeCount("D666F", 1)]
  {
    var ms := MutationsToCount();
    AllWithProteinChange(ms);
    CountFixtureByChange();
    var gs := GroupBy(ms, ProteinChangeOf);
    assert |gs[0].members| == 5 && |gs[1].members| == 1 && |gs[2].members| == 1;
  }

  /** The counting fixture filed by protein change. */
  lemma CountFixtureByChange()
    ensures var ms := MutationsToCount();
      GroupBy(ms, ProteinChangeOf) == [Group("D66B", ms[..5]), Group("D666C", [ms[5]]), Group("D666F", [ms[6]])]
  {
    var ms := MutationsToCount();
    assert forall i :: 0 <= i < 5 ==> ProteinChangeOf(ms[i]) == "D66B";
    assert ProteinChangeOf(ms[5]) == "D666C" && ProteinChangeOf(ms[6]) == "D666F";
    RunThenTwoSingles(ms, ProteinChangeOf);
  }

  /** Seven elements keyed `a a a a a b c` with `a`, `b`, `c` distinct form a group of five and two single groups. */
  lemma RunThenTwoSingles<K, T>(s: seq<T>, f: T -> K)
    requires |s| == 7 && forall i :: 0 <= i < 5 ==> f(s[i]) == f(s[0])
    requires f(s[5]) != f(s[0]) && f(s[6]) != f(s[0]) && f(s[6]) != f(s[5])
    ensures GroupBy(s, f) == [Group(f(s[0]), s[..5]), Group(f(s[5]), [s[5]]), Group(f(s[6]), [s[6]])]
  {
    var a := Group(f(s[0]), s[..5]);
    assert forall i :: 0 <= i < 5 ==> f(s[..5][i]) == f(s[0]);
    GroupBySingleKey(s[..5], f, f(s[0]));
    GroupByNew(s, f, 5, [a]);
    var b := Group(f(s[5]), [s[5]]);
    GroupByNew(s, f, 6, [a, b]);
    assert s[..7] == s;
  }

  /** Elements that all share one key form one group, in order. */
  lemma {:induction false} GroupBySingleKey<K, T>(s: seq<T>, f: T -> K, k: K)
    requires s != [] && forall i :: 0 <= i < |s| ==> f(s[i]) == k
    ensures GroupBy(s, f) == [Group(k, s)]
  {
    var n := |s| - 1;
    if n > 0 {
      GroupBySingleKey(s[..n], f, k);
      assert s[..n] + [s[n]] == s;
    } else {
      assert s[..n] == [] && [s[n]] == s;
    }
  }

  /** When every record carries a protein change, none is filtered out. */
  lemma {:induction false} AllWithProteinChange(ms: seq<Mutation>)
    requires forall i :: 0 <= i < |ms| ==> ms[i].proteinChange != ""
    ensures WithProteinChange(ms) == ms
  {
    if ms != [] {
      AllWithProteinChange(ms[..|ms| - 1]);
    }
  }

  /** A record of `symbol` in sample `sampleId` of profile GP1. */
  function Call(sampleId: string, symbol: string, status: Option<string>): Mutation
  {
    Mutation(sampleId, "", SymbolOnly(symbol), None, "", None, status, "GP1", 0, 0, "", "")
  }

  /** TP53 twice in PATIENT1 and PIK3CA in PATIENT2, all somatic. */
  function SomaticCalls(): seq<Mutation>
  {
    [Call("PATIENT1", "TP53", None), Call("PATIENT1", "TP53", None), Call("PATIENT2", "PIK3CA", None)]
  }

  /** TP53 and BRCA1 in PATIENT1 and BRCA2 in PATIENT2, all germline. */
  function GermlineCalls(): seq<Mutation>
  {
    [ Call("PATIENT1", "TP53", Some(GermlineStatus)), Call("PATIENT1", "BRCA1", Some(GermlineStatus)),
      Call("PATIENT2", "BRCA2", Some(GermlineStatus)) ]
  }

  function Profiles(): map<string, MolecularProfile>
  {
    map["GP1" := MolecularProfile("STUDY1")]
  }

  function Sample(sampleId: string): SampleIdentity
  {
    SampleIdentity("STUDY1", sampleId)
  }

  /** One of two patients carries TP53: 50 percent. */
  lemma SomaticHalf()
    ensures SomaticMutationRate("TP53", SomaticCalls(), Profiles(), [Sample("PATIENT1"), Sample("PATIENT2")]) == 50.0
  {
    var cohort := [Sample("PATIENT1"), Sample("PATIENT2")];
    var carried := CarriedSamples("TP53", SomaticCalls(), Profiles(), Somatic);
    assert carried == [Sample("PATIENT1"), Sample("PATIENT1")];
    assert MutatedSampleIds(cohort, carried) == {"PATIENT1"};
  }

  /** A gene no record has: 0 percent. */
  lemma SomaticAbsentGene()
    ensures SomaticMutationRate("NASDASFASG", SomaticCalls(), Profiles(), [Sample("PATIENT1"), Sample("PATIENT2")]) == 0.0
  {
    AbsentGeneRate("NASDASFASG", SomaticCalls(), Profiles(), [Sample("PATIENT1"), Sample("PATIENT2")], Somatic);
  }

  /** A cohort of just the one carrier: 100 percent. */
  lemma SomaticSoleCarrier()
    ensures SomaticMutationRate("PIK3CA", SomaticCalls(), Profiles(), [Sample("PATIENT2")]) == 100.0
  {
    var pik := CarriedSamples("PIK3CA", SomaticCalls(), Profiles(), Somatic);
    assert pik == [Sample("PATIENT2")];
    assert MutatedSampleIds([Sample("PATIENT2")], pik) == {"PATIENT2"};
  }

  /** A gene that only germline calls have: 0 percent somatic. */
  lemma SomaticGermlineOnlyGene()
    ensures SomaticMutationRate("BRCA1", SomaticCalls() + GermlineCalls(), Profiles(), [Sample("PATIENT2")]) == 0.0
  {
    SomaticIgnoresGermline("BRCA1", SomaticCalls(), GermlineCalls(), Profiles(), [Sample("PATIENT2")]);
    AbsentGeneRate("BRCA1", SomaticCalls(), Profiles(), [Sample("PATIENT2")], Somatic);
  }

  /** A cohort whose only sample has no record: 0 percent. */
  lemma SomaticUnknownSample()
    ensures SomaticMutationRate("PIK3CA", SomaticCalls(), Profiles(), [Sample("XXXX")]) == 0.0
  {
    var pik := CarriedSamples("PIK3CA", SomaticCalls(), Profiles(), Somatic);
    assert pik == [Sample("PATIENT2")];
    assert MutatedSampleIds([Sample("XXXX")], pik) == {};
  }

  /** One of two patients carries a germline BRCA1 call: 50 percent. */
  lemma GermlineHalf()
    ensures GermlineMutationRate("BRCA1", GermlineCalls(), Profiles(), [Sample("PATIENT1"), Sample("PATIENT2")]) == 50.0
  {
    var brca1 := CarriedSamples("BRCA1", GermlineCalls(), Profiles(), Germline);
    assert brca1 == [Sample("PATIENT1")];
    assert MutatedSampleIds([Sample("PATIENT1"), Sample("PATIENT2")], brca1) == {"PATIENT1"};
  }

  /** A gene that only somatic calls have: 0 percent germline. */
  lemma GermlineSomaticOnlyGene()
    ensures GermlineMutationRate("PIK3CA", GermlineCalls() + SomaticCalls(), Profiles(), [Sample("PATIENT1"), Sample("PATIENT2")]) == 0.0
  {
    var cohort := [Sample("PATIENT1"), Sample("PATIENT2")];
    GermlineIgnoresSomatic("PIK3CA", GermlineCalls(), SomaticCalls(), Profiles(), cohort);
    AbsentGeneRate("PIK3CA", GermlineCalls(), Profiles(), cohort, Germline);
  }

  /** A cohort whose only sample has no record: 0 percent. */
  lemma GermlineUnknownSample()
    ensures GermlineMutationRate("BRCA2", GermlineCalls(), Profiles(), [Sample("XXXX")]) == 0.0
  {
    var brca2 := CarriedSamples("BRCA2", GermlineCalls(), Profiles(), Germline);
    assert brca2 == [Sample("PATIENT2")];
    assert MutatedSampleIds([Sample("XXXX")], brca2) == {};
  }

  /** A gene no record has: 0 percent. */
  lemma GermlineAbsentGene()
    ensures GermlineMutationRate("NASDASFASG", GermlineCalls(), Profiles(), [Sample("PATIENT1"), Sample("PATIENT2")]) == 0.0
  {
    AbsentGeneRate("NASDASFASG", GermlineCalls(), Profiles(), [Sample("PATIENT1"), Sample("PATIENT2")], Germline);
  }

  /** A record that carries nothing but its coordinates. */
  function At(chromosome: string, position: int, referenceAllele: string, variantAllele: string): Mutation
  {
    Mutation("", "", Gene("", None, None, None, None, Some(chromosome)), None, "", None, None, "",
             position, position, referenceAllele, variantAllele)
  }

  /** Two records at each of two locations and one at a third. */
  function LocatedCalls(): seq<Mutation>
  {
    [At("7", 111, "T", "C"), At("7", 111, "T", "C"), At("17", 66, "T", "A"), At("17", 66, "T", "A"), At("4", 11, "-", "G")]
  }

  /** Duplicate locations are removed: 5 - 2 = 3 remain, the first record of each. */
  lemma LocatedCallsDeduplicated()
    ensures var ms := LocatedCalls(); UniqueGenomicLocations(ms) == [ms[0], ms[2], ms[4]]
    ensures |UniqueGenomicLocations(LocatedCalls())| == 3
  {
    var ms := LocatedCalls();
    assert LocationOf(ms[1]) == LocationOf(ms[0]) && LocationOf(ms[3]) == LocationOf(ms[2]);
    assert LocationOf(ms[2]) != LocationOf(ms[0]);
    assert LocationOf(ms[4]) != LocationOf(ms[0]) && LocationOf(ms[4]) != LocationOf(ms[2]);
    TwoPairsOneSingle(ms, LocationOf);
  }

  /** Five elements keyed `a a b b c` with `a`, `b`, `c` distinct keep their first, third and fifth. */
  lemma TwoPairsOneSingle<K, T>(s: seq<T>, f: T -> K)
    requires |s| == 5 && f(s[1]) == f(s[0]) && f(s[3]) == f(s[2])
    requires f(s[2]) != f(s[0]) && f(s[4]) != f(s[0]) && f(s[4]) != f(s[2])
    ensures DistinctBy(s, f) == [s[0], s[2], s[4]]
  {
    assert s[..0] == [];
    DistinctByNew(s, f, 0, []);
    assert Image([s[0]], f) == [f(s[0])];
    DistinctBySeen(s, f, 1, [s[0]]);
    DistinctByNew(s, f, 2, [s[0]]);
    assert Image([s[0], s[2]], f) == [f(s[0]), f(s[2])];
    DistinctBySeen(s, f, 3, [s[0], s[2]]);
    DistinctByNew(s, f, 4, [s[0], s[2]]);
    assert s[..5] == s;
  }

  /** An element at a new key is kept. */
  lemma DistinctByNew<K, T>(s: seq<T>, f: T -> K, n: nat, d: seq<T>)
    requires n < |s| && DistinctBy(s[..n], f) == d && f(s[n]) !in Image(d, f)
    ensures DistinctBy(s[..n + 1], f) == d + [s[n]]
  {
    DistinctByStep(s, f, n + 1);
  }

  /** An element at a key already kept is dropped. */
  lemma DistinctBySeen<K, T>(s: seq<T>, f: T -> K, n: nat, d: seq<T>)
    requires n < |s| && DistinctBy(s[..n], f) == d && f(s[n]) in Image(d, f)
    ensures DistinctBy(s[..n + 1], f) == d
  {
    DistinctByStep(s, f, n + 1);
  }

  /** One step of a de-duplication: the prefix one element longer. */
  lemma DistinctByStep<K, T>(s: seq<T>, f: T -> K, n: nat)
    requires 0 < n <= |s|
    ensures DistinctBy(s[..n], f) ==
      if f(s[n - 1]) in Image(DistinctBy(s[..n - 1], f), f) then DistinctBy(s[..n - 1], f)
      else DistinctBy(s[..n - 1], f) + [s[n - 1]]
  {
    assert s[..n][..n - 1] == s[..n - 1];
  }

  /** The authoritative genes of the backfill tests. */
  function KnownGenes(): map<string, Gene>
  {
    map[
      "AR" := Gene("AR", Some(367), Some("protein-coding"), Some("Xq12"), Some(186588), Some("X")),
      "BRCA1" := Gene("BRCA1", Some(672), Some("protein-coding"), Some("17q21.31"), Some(81189), Some("17")),
      "BRCA2" := Gene("BRCA2", Some(675), Some("protein-coding"), Some("13q13.1"), Some(84193), Some("13"))]
  }

  /** Objects that carry only a symbol receive the full gene and its id. */
  method BackfillAddsMissingInfo()
  {
    var genes := KnownGenes();
    var ar := new MutationObject(SymbolOnly("AR"), None, Some("L729I"), None);
    var brca1 := new MutationObject(SymbolOnly("BRCA1"), None, Some("C47W"), None);
    var brca2 := new MutationObject(SymbolOnly("BRCA2"), None, None, Some("R2842C"));
    var mutations := new MutationObject[3] [ar, brca1, brca2];
    assert KeyedBySymbol(genes);
    UpdateMissingGeneInfo(mutations, genes);
    assert mutations[0] == ar && mutations[1] == brca1 && mutations[2] == brca2;
    assert ar.gene == genes["AR"] && ar.entrezGeneId == genes["AR"].entrezGeneId;
    assert brca1.gene == genes["BRCA1"] && brca1.entrezGeneId == genes["BRCA1"].entrezGeneId;
    assert brca2.gene == genes["BRCA2"] && brca2.entrezGeneId == genes["BRCA2"].entrezGeneId;
    assert brca2.aminoAcidChange == Some("R2842C");
  }

  /** A placeholder id of -1 is existing information and is not overwritten. */
  method BackfillKeepsExistingInfo()
  {
    var genes := KnownGenes();
    var ar := new MutationObject(Gene("AR", Some(-1), None, None, None, None), Some(-1), None, None);
    var mutations := new MutationObject[1] [ar];
    UpdateMissingGeneInfo(mutations, genes);
    assert mutations[0] == ar;
    assert ar.entrezGeneId != genes["AR"].entrezGeneId;
    assert ar.gene.entrezGeneId != genes["AR"].entrezGeneId;
  }

  /** One step of a grouping: the grouping of a prefix one element longer. */
  lemma GroupByStep<K, T>(s: seq<T>, f: T -> K, n: nat)
    requires 0 < n <= |s|
    ensures GroupBy(s[..n], f) == Add(GroupBy(s[..n - 1], f), f(s[n - 1]), s[n - 1])
  {
    assert s[..n][..n - 1] == s[..n - 1];
  }
}
