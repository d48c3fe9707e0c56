/**
 * Backfill of missing gene information on partially populated mutation
 * objects, in place, from an authoritative symbol-to-gene map. Known gene ids
 * are never overwritten.
 */
module GeneInfo {
  import opened Wrappers
  import opened Mutations

  /** A partially populated mutation object as the caller owns it; the backfill updates it in place. */
  class MutationObject {
    var gene: Gene
    var entrezGeneId: Option<int>
    var proteinChange: Option<string>
    var aminoAcidChange: Option<string>

    constructor (gene: Gene, entrezGeneId: Option<int>, proteinChange: Option<string>, aminoAcidChange: Option<string>)
      ensures this.gene == gene && this.entrezGeneId == entrezGeneId
      ensures this.proteinChange == proteinChange && this.aminoAcidChange == aminoAcidChange
    {
      this.gene := gene;
      this.entrezGeneId := entrezGeneId;
      this.proteinChange := proteinChange;
      this.aminoAcidChange := aminoAcidChange;
    }
  }

  /** The two fields the backfill may write. */
  datatype GeneFields = GeneFields(gene: Gene, entrezGeneId: Option<int>)

  function Fields(o: MutationObject): GeneFields
    reads o
  {
    GeneFields(o.gene, o.entrezGeneId)
  }

  /**
   * The effect of the backfill on one object: when its gene has no id and its
   * symbol is in the map, the gene is replaced by the map's entry and the
   * object's own id, unless already present, is set to that entry's id;
   * otherwise nothing changes.
   */
  function Backfill(f: GeneFields, genes: map<string, Gene>): GeneFields
  {
    if f.gene.entrezGeneId.None? && f.gene.hugoGeneSymbol in genes then
      var g := genes[f.gene.hugoGeneSymbol];
      GeneFields(g, if f.entrezGeneId.Some? then f.entrezGeneId else g.entrezGeneId)
    else f
  }

  /** The backfill applied `n` times: what an object listed `n` times in the input goes through. */
  function BackfillTimes(n: nat, f: GeneFields, genes: map<string, Gene>): GeneFields
  {
    if n == 0 then f else Backfill(BackfillTimes(n - 1, f, genes), genes)
  }

  /** Every entry of the map is filed under its own symbol, as a map built by symbol is. */
  ghost predicate KeyedBySymbol(genes: map<string, Gene>)
  {
    forall s :: s in genes ==> genes[s].hugoGeneSymbol == s
  }

  /** On a map keyed by symbol, backfilling twice is backfilling once. */
  lemma BackfillIdempotent(f: GeneFields, genes: map<string, Gene>)
    requires KeyedBySymbol(genes)
    ensures Backfill(Backfill(f, genes), genes) == Backfill(f, genes)
  {
  }

  /** Hence an object listed several times ends up as if backfilled once. */
  lemma {:induction false} BackfillTimesOnce(n: nat, f: GeneFields, genes: map<string, Gene>)
    requires KeyedBySymbol(genes) && n >= 1
    ensures BackfillTimes(n, f, genes) == Backfill(f, genes)
  {
    if n > 1 {
      BackfillTimesOnce(n - 1, f, genes);
      BackfillIdempotent(f, genes);
    }
  }

  /** An object whose gene already has an id, even a placeholder such as -1, is never changed, however often it is visited. */
  lemma {:induction false} BackfillTimesKeepsKnownId(n: nat, f: GeneFields, genes: map<string, Gene>)
    requires f.gene.entrezGeneId.Some?
    ensures BackfillTimes(n, f, genes) == f
  {
    if n > 0 {
      BackfillTimesKeepsKnownId(n - 1, f, genes);
    }
  }

  /** An object's own id, once present, is never overwritten, however often the object is visited. */
  lemma {:induction false} BackfillTimesKeepsObjectId(n: nat, f: GeneFields, genes: map<string, Gene>)
    requires f.entrezGeneId.Some?
    ensures BackfillTimes(n, f, genes).entrezGeneId == f.entrezGeneId
  {
    if n > 0 {
      BackfillTimesKeepsObjectId(n - 1, f, genes);
    }
  }

  /** What any positive number of visits does to an object, gathered for the array-wide update. */
  lemma BackfillTimesSummary(n: nat, f: GeneFields, genes: map<string, Gene>)
    requires n >= 1
    ensures KeyedBySymbol(genes) ==> BackfillTimes(n, f, genes) == Backfill(f, genes)
    ensures f.gene.entrezGeneId.Some? ==> BackfillTimes(n, f, genes) == f
    ensures f.entrezGeneId.Some? ==> BackfillTimes(n, f, genes).entrezGeneId == f.entrezGeneId
  {
    if KeyedBySymbol(genes) {
      BackfillTimesOnce(n, f, genes);
    }
    if f.gene.entrezGeneId.Some? {
      BackfillTimesKeepsKnownId(n, f, genes);
    }
    if f.entrezGeneId.Some? {
      BackfillTimesKeepsObjectId(n, f, genes);
    }
  }

  /** How many times `o` is listed in `s`. */
  function Listings(s: seq<MutationObject>, o: MutationObject): nat
  {
    if s == [] then 0 else Listings(s[..|s| - 1], o) + if s[|s| - 1] == o then 1 else 0
  }

  /** Listing one more object adds one occurrence of it and none of any other. */
  lemma ListingsNext(s: seq<MutationObject>, k: nat, o: MutationObject)
    requires k < |s|
    ensures Listings(s[..k + 1], o) == Listings(s[..k], o) + if s[k] == o then 1 else 0
  {
    assert s[..k + 1][..k] == s[..k];
  }

  /** An object that is listed is listed at least once. */
  lemma {:induction false} ListingsPositive(s: seq<MutationObject>, j: int)
    requires 0 <= j < |s|
    ensures Listings(s, s[j]) >= 1
  {
    if j < |s| - 1 {
      assert s[..|s| - 1][j] == s[j];
      ListingsPositive(s[..|s| - 1], j);
    }
  }

  /** Backfills one object in place. */
  method BackfillObject(m: MutationObject, genes: map<string, Gene>)
    modifies m
    ensures Fields(m) == Backfill(old(Fields(m)), genes)
    ensures m.proteinChange == old(m.proteinChange) && m.aminoAcidChange == old(m.aminoAcidChange)
  {
    if m.gene.entrezGeneId.None? && m.gene.hugoGeneSymbol in genes {
      var g := genes[m.gene.hugoGeneSymbol];
      m.gene := g;
      if m.entrezGeneId.None? {
        m.entrezGeneId := g.entrezGeneId;
      }
    }
  }

  /**
   * Updates every object of `mutations` in place. Each object's gene fields
   * become the backfill of their old value, applied once per occurrence of the
   * object in the array (on a map keyed by symbol, the same as once); objects
   * whose gene already had an id keep both ids; an object's own id, once
   * present, is kept; no other field changes.
   */
  method UpdateMissingGeneInfo(mutations: array<MutationObject>, genes: map<string, Gene>)
    modifies set i | 0 <= i < mutations.Length :: mutations[i]
    ensures forall j :: 0 <= j < mutations.Length ==>
      Fields(mutations[j]) == BackfillTimes(Listings(mutations[..], mutations[j]), old(Fields(mutations[j])), genes)
    ensures KeyedBySymbol(genes) ==> forall j :: 0 <= j < mutations.Length ==>
      Fields(mutations[j]) == Backfill(old(Fields(mutations[j])), genes)
    ensures forall j :: 0 <= j < mutations.Length && old(mutations[j].gene.entrezGeneId).Some? ==>
      Fields(mutations[j]) == old(Fields(mutations[j]))
    ensures forall j :: 0 <= j < mutations.Length && old(mutations[j].entrezGeneId).Some? ==>
      mutations[j].entrezGeneId == old(mutations[j].entrezGeneId)
    ensures forall j :: 0 <= j < mutations.Length ==>
      mutations[j].proteinChange == old(mutations[j].proteinChange) &&
      mutations[j].aminoAcidChange == old(mutations[j].aminoAcidChange)
  {
    var i := 0;
    while i < mutations.Length
      invariant 0 <= i <= mutations.Length
      invariant forall j :: 0 <= j < mutations.Length ==>
        Fields(mutations[j]) == BackfillTimes(Listings(mutations[..i], mutations[j]), old(Fields(mutations[j])), genes)
      invariant forall j :: 0 <= j < mutations.Length ==>
        mutations[j].proteinChange == old(mutations[j].proteinChange) &&
        mutations[j].aminoAcidChange == old(mutations[j].aminoAcidChange)
    {
      var m := mutations[i];
      label Visit:
      BackfillObject(m, genes);
      forall j | 0 <= j < mutations.Length
        ensures Fields(mutations[j]) ==
          BackfillTimes(Listings(mutations[..i + 1], mutations[j]), old(Fields(mutations[j])), genes)
      {
        ListingsNext(mutations[..], i, mutations[j]);
        assert mutations[..][..i + 1] == mutations[..i + 1] && mutations[..][..i] == mutations[..i];
        if mutations[j] == m {
          assert Fields(m) == Backfill(old@Visit(Fields(m)), genes);
        } else {
          assert Fields(mutations[j]) == old@Visit(Fields(mutations[j]));
        }
      }
      i := i + 1;
    }
    assert mutations[..i] == mutations[..];
    forall j | 0 <= j < mutations.Length
      ensures KeyedBySymbol(genes) ==> Fields(mutations[j]) == Backfill(old(Fields(mutations[j])), genes)
      ensures old(mutations[j].gene.entrezGeneId).Some? ==> Fields(mutations[j]) == old(Fields(mutations[j]))
      ensures old(mutations[j].entrezGeneId).Some? ==> mutations[j].entrezGeneId == old(mutations[j].entrezGeneId)
    {
      ListingsPositive(mutations[..], j);
      BackfillTimesSummary(Listings(mutations[..], mutations[j]), old(Fields(mutations[j])), genes);
    }
  }
}
