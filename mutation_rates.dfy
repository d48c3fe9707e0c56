/**
 * The somatic and germline alteration rates of one gene over a cohort: the
 * percentage of the cohort's sample ids that carry, in their own study, a
 * record of the gene with the requested mutation status.
 */
module MutationRates {
  import opened Collections
  import opened Mutations

  /** Which calls a rate looks at. */
  datatype Variant = Somatic | Germline

  /** Germline rates keep only records marked germline; somatic rates keep all the others. */
  predicate HasStatus(m: Mutation, v: Variant)
  {
    if v == Germline then IsGermline(m) else !IsGermline(m)
  }

  /** The record is of the gene, has the requested status, and its profile is known. */
  predicate Survives(gene: string, m: Mutation, profiles: map<string, MolecularProfile>, v: Variant)
  {
    m.gene.hugoGeneSymbol == gene && HasStatus(m, v) && m.molecularProfileId in profiles
  }

  /** The (study, sample) pair of every surviving record, in input order. */
  function CarriedSamples(gene: string, ms: seq<Mutation>, profiles: map<string, MolecularProfile>, v: Variant): seq<SampleIdentity>
  {
    if ms == [] then []
    else
      var m := ms[0];
      (if Survives(gene, m, profiles, v) then [SampleIdentity(profiles[m.molecularProfileId].studyId, m.sampleId)] else [])
      + CarriedSamples(gene, ms[1..], profiles, v)
  }

  /** Reference definition: some record of the gene with the requested status belongs to sample `c` of study `c.studyId`. */
  ghost predicate Carried(gene: string, ms: seq<Mutation>, profiles: map<string, MolecularProfile>, v: Variant, c: SampleIdentity)
  {
    exists m :: m in ms && Survives(gene, m, profiles, v)
      && profiles[m.molecularProfileId].studyId == c.studyId && m.sampleId == c.sampleId
  }

  /** The distinct sample ids of the cohort members found among `carried`. */
  function MutatedSampleIds(cohort: seq<SampleIdentity>, carried: seq<SampleIdentity>): set<string>
  {
    set c | c in cohort && c in carried :: c.sampleId
  }

  /** `100 * |mutated sample ids| / |cohort|`, and 0 for an empty cohort. */
  function AlterationRate(gene: string, ms: seq<Mutation>, profiles: map<string, MolecularProfile>,
                          cohort: seq<SampleIdentity>, v: Variant): real
  {
    if |cohort| == 0 then 0.0
    else 100.0 * (|MutatedSampleIds(cohort, CarriedSamples(gene, ms, profiles, v))| as real) / (|cohort| as real)
  }

  /** The percentage of the cohort carrying a somatic mutation of `gene`; always between 0 and 100. */
  function SomaticMutationRate(gene: string, ms: seq<Mutation>, profiles: map<string, MolecularProfile>,
                               cohort: seq<SampleIdentity>): (r: real)
    ensures 0.0 <= r <= 100.0
  {
    RateBounds(gene, ms, profiles, cohort, Somatic);
    AlterationRate(gene, ms, profiles, cohort, Somatic)
  }

  /** The percentage of the cohort carrying a germline mutation of `gene`; always between 0 and 100. */
  function GermlineMutationRate(gene: string, ms: seq<Mutation>, profiles: map<string, MolecularProfile>,
                                cohort: seq<SampleIdentity>): (r: real)
    ensures 0.0 <= r <= 100.0
  {
    RateBounds(gene, ms, profiles, cohort, Germline);
    AlterationRate(gene, ms, profiles, cohort, Germline)
  }

  // ---------------------------------------------------------------------------
  // Which cohort members count

  /** A cohort member is carried exactly when some surviving record belongs to its sample in its study. */
  lemma {:induction false} CarriedSamplesSpec(gene: string, ms: seq<Mutation>, profiles: map<string, MolecularProfile>,
                                              v: Variant, c: SampleIdentity)
    ensures c in CarriedSamples(gene, ms, profiles, v) <==> Carried(gene, ms, profiles, v, c)
  {
    if ms != [] {
      CarriedSamplesSpec(gene, ms[1..], profiles, v, c);
      assert ms == [ms[0]] + ms[1..];
      if Carried(gene, ms[1..], profiles, v, c) {
        var m :| m in ms[1..] && Survives(gene, m, profiles, v)
          && profiles[m.molecularProfileId].studyId == c.studyId && m.sampleId == c.sampleId;
        assert m in ms;
      }
      if Carried(gene, ms, profiles, v, c) {
        var m :| m in ms && Survives(gene, m, profiles, v)
          && profiles[m.molecularProfileId].studyId == c.studyId && m.sampleId == c.sampleId;
        if m != ms[0] {
          assert m in ms[1..];
        }
      }
    }
  }

  lemma {:induction false} CarriedSamplesAppend(gene: string, ms: seq<Mutation>, xs: seq<Mutation>,
                                                profiles: map<string, MolecularProfile>, v: Variant)
    ensures CarriedSamples(gene, ms + xs, profiles, v) == CarriedSamples(gene, ms, profiles, v) + CarriedSamples(gene, xs, profiles, v)
  {
    if ms != [] {
      CarriedSamplesAppend(gene, ms[1..], xs, profiles, v);
      assert (ms + xs)[1..] == ms[1..] + xs;
    } else {
      assert ms + xs == xs;
    }
  }

  lemma {:induction false} NoSurvivorsCarryNothing(gene: string, xs: seq<Mutation>, profiles: map<string, MolecularProfile>, v: Variant)
    requires forall m :: m in xs ==> !Survives(gene, m, profiles, v)
    ensures CarriedSamples(gene, xs, profiles, v) == []
  {
    if xs != [] {
      assert xs[0] in xs;
      assert forall m :: m in xs[1..] ==> m in xs;
      NoSurvivorsCarryNothing(gene, xs[1..], profiles, v);
    }
  }

  // ---------------------------------------------------------------------------
  // Counting the mutated sample ids

  function SampleIds(cohort: seq<SampleIdentity>): seq<string>
  {
    seq(|cohort|, i requires 0 <= i < |cohort| => cohort[i].sampleId)
  }

  lemma MutatedSampleIdsSnoc(cohort: seq<SampleIdentity>, carried: seq<SampleIdentity>)
    requires cohort != []
    ensures var n := |cohort| - 1;
      MutatedSampleIds(cohort, carried) ==
        MutatedSampleIds(cohort[..n], carried) + (if cohort[n] in carried then {cohort[n].sampleId} else {})
  {
    var n := |cohort| - 1;
    assert cohort == cohort[..n] + [cohort[n]];
  }

  lemma MutatedSampleIdsMember(cohort: seq<SampleIdentity>, carried: seq<SampleIdentity>, x: string)
    ensures x in MutatedSampleIds(cohort, carried) <==> exists i :: 0 <= i < |cohort| && cohort[i] in carried && cohort[i].sampleId == x
  {
    if x in MutatedSampleIds(cohort, carried) {
      var c :| c in cohort && c in carried && c.sampleId == x;
      var i :| 0 <= i < |cohort| && cohort[i] == c;
    }
  }

  /** No sample id counts exactly when no cohort member is carried. */
  lemma MutatedSampleIdsEmpty(cohort: seq<SampleIdentity>, carried: seq<SampleIdentity>)
    ensures MutatedSampleIds(cohort, carried) == {} <==> forall i :: 0 <= i < |cohort| ==> cohort[i] !in carried
  {
    if MutatedSampleIds(cohort, carried) != {} {
      var x :| x in MutatedSampleIds(cohort, carried);
      MutatedSampleIdsMember(cohort, carried, x);
    } else {
      forall i | 0 <= i < |cohort| ensures cohort[i] !in carried {
        MutatedSampleIdsMember(cohort, carried, cohort[i].sampleId);
      }
    }
  }

  /** No cohort member is counted twice, so the count never exceeds the cohort size. */
  lemma {:induction false} MutatedSampleIdsBound(cohort: seq<SampleIdentity>, carried: seq<SampleIdentity>)
    ensures |MutatedSampleIds(cohort, carried)| <= |cohort|
  {
    if cohort != [] {
      MutatedSampleIdsBound(cohort[..|cohort| - 1], carried);
      MutatedSampleIdsSnoc(cohort, carried);
    }
  }

  /** When every member is carried and no sample id repeats, every member counts. */
  lemma {:induction false} MutatedSampleIdsAll(cohort: seq<SampleIdentity>, carried: seq<SampleIdentity>)
    requires forall i :: 0 <= i < |cohort| ==> cohort[i] in carried
    requires DistinctSeq(SampleIds(cohort))
    ensures |MutatedSampleIds(cohort, carried)| == |cohort|
  {
    if cohort != [] {
      var n := |cohort| - 1;
      var pre := cohort[..n];
      assert SampleIds(pre) == SampleIds(cohort)[..n];
      MutatedSampleIdsAll(pre, carried);
      MutatedSampleIdsSnoc(cohort, carried);
      forall i | 0 <= i < n ensures pre[i].sampleId != cohort[n].sampleId {
        assert SampleIds(cohort)[i] != SampleIds(cohort)[n];
      }
      MutatedSampleIdsMember(pre, carried, cohort[n].sampleId);
    }
  }

  /** Conversely, when every member counts, every member is carried and no sample id repeats. */
  lemma {:induction false} MutatedSampleIdsOnlyAll(cohort: seq<SampleIdentity>, carried: seq<SampleIdentity>)
    requires |MutatedSampleIds(cohort, carried)| == |cohort|
    ensures forall i :: 0 <= i < |cohort| ==> cohort[i] in carried
    ensures DistinctSeq(SampleIds(cohort))
  {
    if cohort != [] {
      var n := |cohort| - 1;
      var pre := cohort[..n];
      MutatedSampleIdsBound(pre, carried);
      MutatedSampleIdsSnoc(cohort, carried);
      var mPre := MutatedSampleIds(pre, carried);
      assert |mPre| == |pre|;
      MutatedSampleIdsOnlyAll(pre, carried);
      assert cohort[n] in carried && cohort[n].sampleId !in mPre;
      assert SampleIds(pre) == SampleIds(cohort)[..n];
      forall i, j | 0 <= i < j < |cohort| ensures SampleIds(cohort)[i] != SampleIds(cohort)[j] {
        if j < n {
          assert SampleIds(pre)[i] != SampleIds(pre)[j];
        } else {
          MutatedSampleIdsMember(pre, carried, pre[i].sampleId);
        }
      }
    }
  }

  /**
   * The rate of a non-empty cohort is 100 times the number of distinct sample
   * ids among its carried members, divided by the cohort's length (repeats
   * included).
   */
  lemma RateFormula(gene: string, ms: seq<Mutation>, profiles: map<string, MolecularProfile>,
                    cohort: seq<SampleIdentity>, v: Variant)
    requires |cohort| > 0
    ensures AlterationRate(gene, ms, profiles, cohort, v) ==
      100.0 * (|set c | c in cohort && Carried(gene, ms, profiles, v, c) :: c.sampleId| as real) / (|cohort| as real)
  {
    var carried := CarriedSamples(gene, ms, profiles, v);
    forall c | c in cohort ensures c in carried <==> Carried(gene, ms, profiles, v, c) {
      CarriedSamplesSpec(gene, ms, profiles, v, c);
    }
    assert MutatedSampleIds(cohort, carried) == set c | c in cohort && Carried(gene, ms, profiles, v, c) :: c.sampleId;
  }

  /** Percentages of a positive whole: within [0, 100], 0 only for none, 100 only for all. */
  lemma Percent(k: nat, n: nat)
    requires 0 < n && k <= n
    ensures 0.0 <= 100.0 * (k as real) / (n as real) <= 100.0
    ensures 100.0 * (k as real) / (n as real) == 0.0 <==> k == 0
    ensures 100.0 * (k as real) / (n as real) == 100.0 <==> k == n
  {
    var q := 100.0 * (k as real) / (n as real);
    assert q * (n as real) == 100.0 * (k as real);
  }

  // ---------------------------------------------------------------------------
  // Properties of the rate

  lemma RateBounds(gene: string, ms: seq<Mutation>, profiles: map<string, MolecularProfile>,
                   cohort: seq<SampleIdentity>, v: Variant)
    ensures 0.0 <= AlterationRate(gene, ms, profiles, cohort, v) <= 100.0
  {
    var k := |MutatedSampleIds(cohort, CarriedSamples(gene, ms, profiles, v))|;
    MutatedSampleIdsBound(cohort, CarriedSamples(gene, ms, profiles, v));
    if |cohort| > 0 {
      Percent(k, |cohort|);
    }
  }

  /** The rate is 0 exactly when the cohort is empty or none of its members carries a surviving record. */
  lemma RateZero(gene: string, ms: seq<Mutation>, profiles: map<string, MolecularProfile>,
                 cohort: seq<SampleIdentity>, v: Variant)
    ensures AlterationRate(gene, ms, profiles, cohort, v) == 0.0 <==>
      |cohort| == 0 || forall i :: 0 <= i < |cohort| ==> !Carried(gene, ms, profiles, v, cohort[i])
  {
    var carried := CarriedSamples(gene, ms, profiles, v);
    forall i | 0 <= i < |cohort| ensures cohort[i] in carried <==> Carried(gene, ms, profiles, v, cohort[i]) {
      CarriedSamplesSpec(gene, ms, profiles, v, cohort[i]);
    }
    MutatedSampleIdsEmpty(cohort, carried);
    if |cohort| > 0 {
      MutatedSampleIdsBound(cohort, carried);
      Percent(|MutatedSampleIds(cohort, carried)|, |cohort|);
    }
  }

  /**
   * The rate is 100 exactly when the cohort is non-empty, every member is
   * carried, and no sample id repeats in it.
   */
  lemma RateFull(gene: string, ms: seq<Mutation>, profiles: map<string, MolecularProfile>,
                 cohort: seq<SampleIdentity>, v: Variant)
    ensures AlterationRate(gene, ms, profiles, cohort, v) == 100.0 <==>
      |cohort| > 0 && (forall i :: 0 <= i < |cohort| ==> Carried(gene, ms, profiles, v, cohort[i]))
      && DistinctSeq(SampleIds(cohort))
  {
    var carried := CarriedSamples(gene, ms, profiles, v);
    var k := |MutatedSampleIds(cohort, carried)|;
    MutatedSampleIdsBound(cohort, carried);
    forall i | 0 <= i < |cohort| ensures cohort[i] in carried <==> Carried(gene, ms, profiles, v, cohort[i]) {
      CarriedSamplesSpec(gene, ms, profiles, v, cohort[i]);
    }
    if |cohort| > 0 {
      Percent(k, |cohort|);
      if k == |cohort| {
        MutatedSampleIdsOnlyAll(cohort, carried);
      }
      if (forall i :: 0 <= i < |cohort| ==> cohort[i] in carried) && DistinctSeq(SampleIds(cohort)) {
        MutatedSampleIdsAll(cohort, carried);
      }
    }
  }

  /** Records the rate does not look at (other status, other gene, unknown profile) do not change it. */
  lemma IgnoredRecordsDoNotCount(gene: string, ms: seq<Mutation>, xs: seq<Mutation>,
                                 profiles: map<string, MolecularProfile>, cohort: seq<SampleIdentity>, v: Variant)
    requires forall m :: m in xs ==> !Survives(gene, m, profiles, v)
    ensures AlterationRate(gene, ms + xs, profiles, cohort, v) == AlterationRate(gene, ms, profiles, cohort, v)
  {
    CarriedSamplesAppend(gene, ms, xs, profiles, v);
    NoSurvivorsCarryNothing(gene, xs, profiles, v);
    assert CarriedSamples(gene, ms, profiles, v) + [] == CarriedSamples(gene, ms, profiles, v);
  }

  /** Germline records never move the somatic rate. */
  lemma SomaticIgnoresGermline(gene: string, ms: seq<Mutation>, gs: seq<Mutation>,
                               profiles: map<string, MolecularProfile>, cohort: seq<SampleIdentity>)
    requires forall m :: m in gs ==> IsGermline(m)
    ensures SomaticMutationRate(gene, ms + gs, profiles, cohort) == SomaticMutationRate(gene, ms, profiles, cohort)
  {
    IgnoredRecordsDoNotCount(gene, ms, gs, profiles, cohort, Somatic);
  }

  /** Somatic records never move the germline rate. */
  lemma GermlineIgnoresSomatic(gene: string, ms: seq<Mutation>, ss: seq<Mutation>,
                               profiles: map<string, MolecularProfile>, cohort: seq<SampleIdentity>)
    requires forall m :: m in ss ==> !IsGermline(m)
    ensures GermlineMutationRate(gene, ms + ss, profiles, cohort) == GermlineMutationRate(gene, ms, profiles, cohort)
  {
    IgnoredRecordsDoNotCount(gene, ms, ss, profiles, cohort, Germline);
  }

  /** A gene no record carries has rate 0. */
  lemma AbsentGeneRate(gene: string, ms: seq<Mutation>, profiles: map<string, MolecularProfile>,
                       cohort: seq<SampleIdentity>, v: Variant)
    requires forall m :: m in ms ==> m.gene.hugoGeneSymbol != gene
    ensures AlterationRate(gene, ms, profiles, cohort, v) == 0.0
  {
    NoSurvivorsCarryNothing(gene, ms, profiles, v);
  }

  /** A second record of an already counted sample is not counted again. */
  lemma RepeatedRecordCountsOnce(gene: string, ms: seq<Mutation>, m: Mutation, profiles: map<string, MolecularProfile>,
                                 cohort: seq<SampleIdentity>, v: Variant)
    requires m in ms
    ensures AlterationRate(gene, ms + [m], profiles, cohort, v) == AlterationRate(gene, ms, profiles, cohort, v)
  {
    var carried := CarriedSamples(gene, ms, profiles, v);
    var extra := CarriedSamples(gene, [m], profiles, v);
    CarriedSamplesAppend(gene, ms, [m], profiles, v);
    forall c | c in extra ensures c in carried {
      CarriedSamplesSpec(gene, [m], profiles, v, c);
      CarriedSamplesSpec(gene, ms, profiles, v, c);
    }
    MutatedSampleIdsAbsorb(cohort, carried, extra);
  }

  /** Carried samples that are already listed add no sample id. */
  lemma MutatedSampleIdsAbsorb(cohort: seq<SampleIdentity>, carried: seq<SampleIdentity>, extra: seq<SampleIdentity>)
    requires forall c :: c in extra ==> c in carried
    ensures MutatedSampleIds(cohort, carried + extra) == MutatedSampleIds(cohort, carried)
  {
    assert forall c :: c in carried + extra <==> c in carried;
  }
}
