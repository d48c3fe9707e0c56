# Mutation helpers of the cBioPortal front-end

This project models the mutation-aggregation helpers of the cBioPortal
front-end (`src/shared/lib/MutationUtils`). It covers these eight operations:

- grouping mutation records by gene, patient and protein change;
- the unique and duplicate counts built on that grouping;
- the frequency table of protein changes, sorted by count;
- the somatic and germline alteration rates of a gene over a cohort of samples;
- de-duplication of records by genomic location;
- the in-place backfill of missing gene information.

The implementation file `MutationUtils.ts` is not part of this model. The
behaviour is pinned by its test file, `src/shared/lib/MutationUtils.spec.ts`.
Where the tests leave a case open, the model makes a choice, and "## Left out"
names each one. Every source citation below points into that test file.

The project is organised as follows.

- `wrappers.dfy` holds `Option`, which stands in for a JavaScript value that
  may be `undefined`.
- `mutations.dfy` holds the records. A `Mutation` carries its sample,
  patient, gene, protein change, status, profile and coordinates. A `Gene` is
  an annotation whose id may be absent. The module also defines the grouping
  key `"<symbol>_<patient>_<proteinChange>"` and the genomic location of a
  record.
- `collections.dfy` holds the generic building blocks:
  - an insertion-ordered dictionary (`seq<Group<K, T>>`), with `Find`
    standing for `dict[key]`;
  - `GroupBy`, and `DistinctBy` (keep the first record per key);
  - their proofs: distinct keys, exact lookups, sizes, and first occurrences.
- `mutation_counts.dfy` holds the grouping, the unique count, the duplicate
  count, and the facts about the key.
- `protein_changes.dfy` holds the protein-change table. It is a first-seen
  tally of the non-empty protein changes, stably insertion-sorted by count,
  highest first.
- `mutation_rates.dfy` holds the two rates. A cohort member `(study, sample)`
  counts when a record of the gene with the requested status comes from a
  profile of that study and that sample. The rate is
  `100 * |distinct counted sample ids| / |cohort|`, and 0 for an empty cohort.
- `genomic_locations.dfy` holds the de-duplication by
  `(chromosome, start, end, reference allele, variant allele)`.
- `gene_info.dfy` holds the backfill. `MutationObject` is a class whose
  `gene` and `entrezGeneId` fields the method `UpdateMissingGeneInfo`
  rewrites in place, over an `array` of such objects.
- `scenarios.dfy` restates each test case of the test file as a lemma or a
  method over the same fixtures.

## Model

| member | source | states |
|---|---|---|
| MutationCounts.GroupMutationsByGeneAndPatientAndProteinChange | src/shared/lib/MutationUtils.spec.ts:141-156 | Keys are distinct and come in the order in which they first appear in the input. Looking up a key gives exactly the records with that key, in input order, and undefined for a key no record has. No record is lost: the group sizes add up to the input length. |
| MutationCounts.GroupingKeyInjective | src/shared/lib/MutationUtils.spec.ts:142-155 | Two records share a group iff they agree on gene symbol, patient id and protein change, provided no symbol or patient id contains `_`. Records from different samples of one patient therefore collapse into one group. |
| MutationCounts.SplitAtSeparator | src/shared/lib/MutationUtils.spec.ts:142-155 | A `_`-joined key splits back uniquely into its parts when the first part has no `_`. |
| MutationCounts.SeparatorInSymbolCollides | src/shared/lib/MutationUtils.spec.ts:142-155 | Without that proviso the key is ambiguous: symbol `TP53_P1` with patient `D66B` gets the same key as symbol `TP53` with patient `P1` and protein change `D66B_X`. |
| MutationCounts.CountUniqueMutations | src/shared/lib/MutationUtils.spec.ts:181-193 | The count is the number of distinct grouping keys among the records, and at most the number of records. |
| MutationCounts.CountDuplicateMutations | src/shared/lib/MutationUtils.spec.ts:195-208 | The count is at most the number of grouped records. When no group is empty, it plus the number of groups is the number of grouped records, so it counts the extra records beyond one per group. |
| MutationCounts.DuplicatesOfGrouping | src/shared/lib/MutationUtils.spec.ts:181-208 | On the grouping of a record list, duplicates = records - unique mutations. |
| ProteinChangeCounts.CountMutationsByProteinChange | src/shared/lib/MutationUtils.spec.ts:158-179 | The table is sorted by count, highest first. It is a permutation of the first-seen tally. It is stable: the entries sharing any one count keep their first-seen order. |
| ProteinChangeCounts.SortSpec | src/shared/lib/MutationUtils.spec.ts:164-178 | The insertion sort by count yields a non-increasing, stable permutation of its input, with the same total count. |
| ProteinChangeCounts.TallyOrder | src/shared/lib/MutationUtils.spec.ts:164-178 | The tally lists the protein changes in the order of their first appearance among the records that carry one, which puts D666C before D666F in the test. |
| ProteinChangeCounts.TallyExact | src/shared/lib/MutationUtils.spec.ts:164-178 | The tally lists each non-empty protein change once, in first-seen order, with the number of records carrying it. |
| ProteinChangeCounts.ProteinChangeTableCounts | src/shared/lib/MutationUtils.spec.ts:164-178 | Every entry has a non-empty protein change and a positive count. The count is the number of input records with that protein change (every record counts, with no de-duplication). |
| ProteinChangeCounts.ProteinChangeTableComplete | src/shared/lib/MutationUtils.spec.ts:164-178 | Every non-empty protein change occurring in the input has an entry. |
| ProteinChangeCounts.ProteinChangeTableDistinct | src/shared/lib/MutationUtils.spec.ts:164-178 | No protein change has two entries. |
| ProteinChangeCounts.ProteinChangeTableTotal | src/shared/lib/MutationUtils.spec.ts:158-179 | The counts add up to the number of records with a protein change. The table is empty iff no record has one, and in particular for an empty input. |
| ProteinChangeCounts.ProteinChangeTableSize | src/shared/lib/MutationUtils.spec.ts:164-178 | There are as many entries as distinct non-empty protein changes among the records. |
| MutationRates.SomaticMutationRate | src/shared/lib/MutationUtils.spec.ts:210-263 | The somatic rate is a percentage in [0, 100]. |
| MutationRates.GermlineMutationRate | src/shared/lib/MutationUtils.spec.ts:265-307 | The germline rate is a percentage in [0, 100]. |
| MutationRates.CarriedSamplesSpec | src/shared/lib/MutationUtils.spec.ts:19-72 | A `(study, sample)` pair is collected iff some record of the gene with the requested status comes from that sample, through a known profile of that study. |
| MutationRates.RateFormula | src/shared/lib/MutationUtils.spec.ts:210-307 | For a non-empty cohort, the rate is 100 times the number of distinct sample ids among the cohort members that carry a matching record, divided by the cohort length with repeats included. |
| MutationRates.RateBounds | src/shared/lib/MutationUtils.spec.ts:210-307 | Both rates lie in [0, 100], and an empty cohort gives 0 rather than a division by zero. |
| MutationRates.RateZero | src/shared/lib/MutationUtils.spec.ts:222-261 | The rate is 0 iff the cohort is empty or no cohort member carries a record of the gene with the requested status. |
| MutationRates.RateFull | src/shared/lib/MutationUtils.spec.ts:232-241 | The rate is 100 iff the cohort is non-empty, every member carries such a record, and no sample id repeats in the cohort. |
| MutationRates.MutatedSampleIdsBound | src/shared/lib/MutationUtils.spec.ts:210-307 | The numerator, the set of distinct counted sample ids, is no larger than the cohort. |
| MutationRates.RepeatedRecordCountsOnce | src/shared/lib/MutationUtils.spec.ts:212-220 | Adding a second copy of a record already present leaves the rate unchanged, so no sample is counted twice. |
| MutationRates.IgnoredRecordsDoNotCount | src/shared/lib/MutationUtils.spec.ts:243-251 | Adding records of another gene, of the other status or from an unknown profile leaves the rate unchanged. |
| MutationRates.SomaticIgnoresGermline | src/shared/lib/MutationUtils.spec.ts:243-251 | Germline records never change the somatic rate. |
| MutationRates.GermlineIgnoresSomatic | src/shared/lib/MutationUtils.spec.ts:277-285 | Somatic records never change the germline rate. |
| MutationRates.AbsentGeneRate | src/shared/lib/MutationUtils.spec.ts:222-230 | A gene that no record carries has rate 0. |
| GenomicLocations.UniqueGenomicLocations | src/shared/lib/MutationUtils.spec.ts:309-364 | No two kept records share a location, and every input location is kept. Each kept record is the first record at its location. The kept records come in the order in which their locations first appear in the input. The output length equals the number of distinct locations, which is the input length minus the repeated records. |
| GeneInfo.Backfill | src/shared/lib/MutationUtils.spec.ts:395-443 | A gene without an id whose symbol is in the map takes the map's gene. The object's own id is set to that gene's id unless it is already present. Anything else is left alone. |
| GeneInfo.BackfillObject | src/shared/lib/MutationUtils.spec.ts:395-426 | The object's gene and id become the backfill of their old values. Its protein change and amino-acid change do not change. |
| GeneInfo.UpdateMissingGeneInfo | src/shared/lib/MutationUtils.spec.ts:366-444 | Every object in the array is updated in place, and no field other than the gene and the id changes. Each object's gene and id become the backfill of their old values, applied once per listing of the object. On a map keyed by symbol this is the backfill applied once. An object whose gene already had an id keeps both ids. An object whose own id was present keeps it. |
| GeneInfo.BackfillIdempotent | src/shared/lib/MutationUtils.spec.ts:368-393 | On a map keyed by its own symbols, backfilling twice equals backfilling once. |
| GeneInfo.BackfillTimesOnce | src/shared/lib/MutationUtils.spec.ts:368-393 | On such a map, an object listed several times ends up as if backfilled once. |
| GeneInfo.BackfillTimesKeepsKnownId | src/shared/lib/MutationUtils.spec.ts:428-443 | An object whose gene already has an id is never changed, even when that id is a placeholder such as -1, however often it is visited. |
| GeneInfo.BackfillTimesKeepsObjectId | src/shared/lib/MutationUtils.spec.ts:428-443 | An object's own id, once present, is never overwritten, however often the object is visited. |
| GeneInfo.ListingsPositive | src/shared/lib/MutationUtils.spec.ts:366-444 | Every object in the array is visited at least once. |
| Scenarios.CountFixtureGroups | src/shared/lib/MutationUtils.spec.ts:142-155 | The test fixture yields exactly five groups, with keys `TP53_P1_D66B`, `TP53_P2_D66B`, `TP53_P3_D66B`, `TP53_P4_D666C` and `TP53_P4_D666F`, holding the records of each key in order. |
| Scenarios.CountFixtureLookups | src/shared/lib/MutationUtils.spec.ts:142-155 | The group sizes are 2, 2, 1, 1 and 1. |
| Scenarios.EmptyCounts | src/shared/lib/MutationUtils.spec.ts:159-199 | An empty input gives 0 unique mutations, 0 duplicates and an empty protein-change table. |
| Scenarios.CountFixtureUniqueAndDuplicates | src/shared/lib/MutationUtils.spec.ts:187-207 | The fixture has 5 unique mutations and 2 duplicates. |
| Scenarios.CountFixtureTable | src/shared/lib/MutationUtils.spec.ts:164-178 | The fixture's table is `D66B: 5`, `D666C: 1`, `D666F: 1`, in that order. |
| Scenarios.SomaticHalf | src/shared/lib/MutationUtils.spec.ts:212-220 | TP53 somatic over PATIENT1 and PATIENT2 is 50. |
| Scenarios.SomaticAbsentGene | src/shared/lib/MutationUtils.spec.ts:222-230 | A gene absent from the records has somatic rate 0. |
| Scenarios.SomaticSoleCarrier | src/shared/lib/MutationUtils.spec.ts:232-241 | PIK3CA over the one-sample cohort PATIENT2 is 100. |
| Scenarios.SomaticGermlineOnlyGene | src/shared/lib/MutationUtils.spec.ts:243-251 | BRCA1, carried only as germline, has somatic rate 0. |
| Scenarios.SomaticUnknownSample | src/shared/lib/MutationUtils.spec.ts:253-261 | A cohort of a sample with no records, XXXX, has rate 0. |
| Scenarios.GermlineHalf | src/shared/lib/MutationUtils.spec.ts:267-275 | BRCA1 germline over PATIENT1 and PATIENT2 is 50. |
| Scenarios.GermlineSomaticOnlyGene | src/shared/lib/MutationUtils.spec.ts:277-285 | PIK3CA, carried only as somatic, has germline rate 0. |
| Scenarios.GermlineUnknownSample | src/shared/lib/MutationUtils.spec.ts:287-295 | A cohort of XXXX has germline rate 0. |
| Scenarios.GermlineAbsentGene | src/shared/lib/MutationUtils.spec.ts:297-305 | A gene absent from the records has germline rate 0. |
| Scenarios.LocatedCallsDeduplicated | src/shared/lib/MutationUtils.spec.ts:310-362 | Five records holding two pairs of exact coordinate duplicates keep records 1, 3 and 5, so 3 locations. |

The methods `Scenarios.BackfillAddsMissingInfo` (lines 395-426) and
`Scenarios.BackfillKeepsExistingInfo` (lines 428-443) replay the two backfill
tests on freshly allocated objects. They assert the expected gene, id and
untouched fields.

## Left out

- `MutationUtils.ts` itself is not part of this model. The helpers are
  modelled from their tests. Where the tests do not decide a case, the model
  makes a choice:
  - a gene symbol missing from the map leaves the object unchanged;
  - an object whose gene has no id but whose own id is present keeps its
    own id, and its gene is still replaced by the map's;
  - an empty cohort gives rate 0;
  - records with no protein change get no entry in the table. A plain
    count-by would give `""` an entry.

  The tie between D666C and D666F in the table is decided by the test
  (lines 173-177), and the model keeps that first-seen order.
- Deriving a patient id from a sample id is left out. `patientId` is a field
  of the record, because no code or test shown here defines the derivation
  rule.
- A record or partial mutation object without a `gene` cannot be
  represented, because `gene` and its `hugoGeneSymbol` are mandatory. A
  missing symbol has to be written as `""`. A rate query for the gene `""`
  would count such records, whereas a record with no gene should never
  match. No code shown here says how the helpers treat a missing gene.
- JavaScript floating point is left out. Rates are exact `real`s, and an
  empty cohort gives 0 instead of `NaN`.
- The germline marker is modelled as the string `"Germline"`, compared
  exactly. The real constant lives in `shared/constants`, which is not part
  of this model.
- The test fixtures' mock defaults (`initMutation`) are not part of this
  model. Fixture fields the tests do not set are filled with `""`, `None`, or
  `0` for positions.
- GenomicLocations.UniqueGenomicLocations: returns the first record at each
  location, not a freshly built location value; the location of each kept
  record is that value.
- MutationCounts.GroupingKeyInjective: holds only for symbols and patient ids
  without `_`. The key is not escaped, so the collision shown by
  `SeparatorInSymbolCollides` is real behaviour.
- GeneInfo.UpdateMissingGeneInfo: an object listed twice in the array is
  backfilled once per listing. The contract states that exactly. It equals a
  single backfill only for maps keyed by their own symbols.
- `src/shared/components/oncoprint/geneticrules.ts` (oncoprint display rules)
  and `src/pages/patientView/clinicalInformation/PatientViewPageStore.spec.ts`
  (a response-shape adapter) are static configuration and I/O glue, not part
  of the mutation helpers.
