// Transcript filters of the annotation stage: which GENCODE transcripts are
// well defined, canonical or primary, and which transcripts of either
// catalogue may mark a transcription boundary.
module Filters {
  import opened Common
  import opened Intervals

  /** The attributes of a catalogue record: GENCODE, RefSeq, or any other source. */
  datatype Attrs =
    | Gencode(tags: set<string>, kind: string, level: int)
    | RefSeq(biotype: string)
    | OtherAttrs

  /** A transcript: identifier, contig, strand, span, exons in order, attributes. */
  datatype Rna = Rna(ind: string, seqid: string, strand: Strand, loc: Interval, exons: seq<Interval>, attrs: Attrs)

  const RetainedTags: set<string> :=
    {"retained_intron_CDS", "retained_intron_final", "retained_intron_first", "readthrough_transcript"}

  const ExcludedTypes: set<string> := {
    "retained_intron", "TEC",
    "IG_C_pseudogene", "IG_D_pseudogene", "IG_J_pseudogene", "IG_V_pseudogene",
    "IG_pseudogene", "TR_J_pseudogene", "TR_V_pseudogene", "processed_pseudogene", "pseudogene", "rRNA_pseudogene",
    "transcribed_processed_pseudogene", "transcribed_unitary_pseudogene", "transcribed_unprocessed_pseudogene",
    "translated_processed_pseudogene", "translated_unprocessed_pseudogene", "unitary_pseudogene",
    "unprocessed_pseudogene"
  }

  /** Manually verified transcripts (U1 snRNAs) that pass whatever their attributes say. */
  const Verified: set<string> := {"ENSMUST00000239775.1", "ENSMUST00001239542.1"}

  const RejectedBiotypes: set<string> := {
    "unknown", "pseudogene", "lnc_RNA_pseudogene", "V_gene_segment_pseudogene", "C_gene_segment_pseudogene",
    "J_gene_segment_pseudogene", "D_gene_segment_pseudogene", "rRNA"
  }

  const RibosomalTypes: set<string> := {"rRNA", "Mt_rRNA"}

  /** The quality rule alone: no retained-intron tag, an accepted type, manual level, GENCODE basic. */
  predicate Curated(a: Attrs)
    requires a.Gencode?
  {
    a.tags * RetainedTags == {} && a.kind !in ExcludedTypes && a.level <= 2 && "GENCODE basic" in a.tags
  }

  /** `is_well_defined`: GENCODE records only (asserted); curated or manually verified. */
  function IsWellDefined(rna: Rna): (r: Result<bool>)
    ensures r.Ok? <==> rna.attrs.Gencode?
    ensures r.Err? ==> r.error == AssertionError
    ensures rna.ind in Verified && rna.attrs.Gencode? ==> r == Ok(true)
    ensures rna.attrs.Gencode? && rna.attrs.level > 2 && rna.ind !in Verified ==> r == Ok(false)
  {
    if !rna.attrs.Gencode? then Err(AssertionError)
    else Ok(Curated(rna.attrs) || rna.ind in Verified)
  }

  /** `is_canonical`: tagged "Ensembl canonical" or "MANE Select". */
  function IsCanonical(rna: Rna): (r: Result<bool>)
    ensures r.Ok? <==> rna.attrs.Gencode?
    ensures r.Ok? ==> (r.value <==> "Ensembl canonical" in rna.attrs.tags || "MANE Select" in rna.attrs.tags)
  {
    if !rna.attrs.Gencode? then Err(AssertionError)
    else
      var both := rna.attrs.tags * {"Ensembl canonical", "MANE Select"};
      assert both != {} ==> exists t :: t in both;
      assert "Ensembl canonical" in rna.attrs.tags ==> "Ensembl canonical" in both;
      assert "MANE Select" in rna.attrs.tags ==> "MANE Select" in both;
      Ok(both != {})
  }

  /** `is_primary`: canonical, or tagged "GENCODE primary" or "MANE Plus Clinical". */
  function IsPrimary(rna: Rna): (r: Result<bool>)
    ensures r.Ok? <==> rna.attrs.Gencode?
    ensures IsCanonical(rna) == Ok(true) ==> r == Ok(true)
  {
    if !rna.attrs.Gencode? then Err(AssertionError)
    else
      match IsCanonical(rna)
      case Err(e) => Err(e)
      case Ok(canonical) => Ok(canonical || rna.attrs.tags * {"GENCODE primary", "MANE Plus Clinical"} != {})
  }

  /** A primary transcript that is not canonical carries one of the two primary tags. */
  lemma PrimaryTags(rna: Rna)
    requires IsPrimary(rna) == Ok(true) && IsCanonical(rna) == Ok(false)
    ensures "GENCODE primary" in rna.attrs.tags || "MANE Plus Clinical" in rna.attrs.tags
  {
    var both := rna.attrs.tags * {"GENCODE primary", "MANE Plus Clinical"};
    assert both != {};
    var t :| t in both;
  }

  /**
   * `is_transcription_boundary`: shorter than 100 never; a RefSeq record
   * unless its biotype is listed; a GENCODE record when well defined and not
   * ribosomal; any other record always.
   */
  function IsTranscriptionBoundary(rna: Rna): (r: bool)
    ensures rna.loc.end - rna.loc.start < 100 ==> !r
    ensures r && rna.attrs.Gencode? ==> IsWellDefined(rna) == Ok(true) && rna.attrs.kind !in RibosomalTypes
    ensures r && rna.attrs.RefSeq? ==> rna.attrs.biotype !in RejectedBiotypes
    ensures rna.attrs.OtherAttrs? ==> (r <==> rna.loc.end - rna.loc.start >= 100)
  {
    if rna.loc.end - rna.loc.start < 100 then false
    else
      match rna.attrs
      case RefSeq(biotype) => biotype !in RejectedBiotypes
      case Gencode(_, kind, _) => IsWellDefined(rna) == Ok(true) && kind !in RibosomalTypes
      case OtherAttrs => true
  }

  /** Long enough and acceptable to its catalogue is enough: the converse of the contract above. */
  lemma BoundaryAccepted(rna: Rna)
    requires rna.loc.end - rna.loc.start >= 100
    requires rna.attrs.RefSeq? ==> rna.attrs.biotype !in RejectedBiotypes
    requires rna.attrs.Gencode? ==> IsWellDefined(rna) == Ok(true) && rna.attrs.kind !in RibosomalTypes
    ensures IsTranscriptionBoundary(rna)
  {
  }
}
