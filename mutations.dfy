/**
 * The records the mutation helpers work on. JavaScript fields that may be
 * `undefined` are `Option`s; a missing protein change is the empty string.
 */
module Mutations {
  import opened Wrappers

  /**
   * Gene annotation, both as carried by a mutation record (where only the
   * symbol is reliably present) and as held in the authoritative
   * symbol-to-gene map.
   */
  datatype Gene = Gene(
    hugoGeneSymbol: string,
    entrezGeneId: Option<int>,
    geneType: Option<string>,
    cytoband: Option<string>,
    length: Option<int>,
    chromosome: Option<string>)

  /** One observed alteration in one sample. */
  datatype Mutation = Mutation(
    sampleId: string,
    patientId: string,
    gene: Gene,
    entrezGeneId: Option<int>,
    proteinChange: string,
    proteinPosStart: Option<int>,
    mutationStatus: Option<string>,
    molecularProfileId: string,
    startPosition: int,
    endPosition: int,
    referenceAllele: string,
    variantAllele: string)

  /** The part of a molecular profile the helpers read: the study it belongs to. */
  datatype MolecularProfile = MolecularProfile(studyId: string)

  /** A cohort member: one sample of one study. */
  datatype SampleIdentity = SampleIdentity(studyId: string, sampleId: string)

  /** The value of `mutationStatus` that marks a germline call; any other value, or none, means somatic. */
  const GermlineStatus: string := "Germline"

  predicate IsGermline(m: Mutation)
  {
    m.mutationStatus == Some(GermlineStatus)
  }

  /** The separator of the grouping key. */
  const Separator: char := '_'

  /** The grouping key `"<hugoGeneSymbol>_<patientId>_<proteinChange>"`. */
  function GroupingKey(m: Mutation): string
  {
    m.gene.hugoGeneSymbol + [Separator] + m.patientId + [Separator] + m.proteinChange
  }

  /** The coordinates that identify a physical variant. */
  datatype GenomicLocation = GenomicLocation(
    chromosome: Option<string>,
    startPosition: int,
    endPosition: int,
    referenceAllele: string,
    variantAllele: string)

  function LocationOf(m: Mutation): GenomicLocation
  {
    GenomicLocation(m.gene.chromosome, m.startPosition, m.endPosition, m.referenceAllele, m.variantAllele)
  }

  function ProteinChangeOf(m: Mutation): string
  {
    m.proteinChange
  }

  /** A gene annotation holding only a symbol, as most records and test fixtures carry it. */
  function SymbolOnly(symbol: string): Gene
  {
    Gene(symbol, None, None, None, None, None)
  }
}
