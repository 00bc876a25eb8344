/**
 * The parts of the genome layer that the modelled code uses. That layer's own
 * code is not part of this model, so its operations are kept abstract: they are
 * fields of a `GenomeInterface` record of total functions, and every result
 * proved here holds whatever those functions are.
 */
module Genome {
  import opened Outcomes

  datatype Strand = Positive | Negative

  /** A contig of the genome build, known here only by its name. */
  datatype Contig = Contig(name: string)

  /** A region on a contig, as built from a contig, two coordinates and a strand. */
  datatype GenomicRegion = GenomicRegion(contig: Contig, start: int, end: int, strand: Strand)

  /**
   * The abstract genome operations:
   * `contigByName` is `GenomeBuild.contig_by_name` (None when the name is unknown),
   * `withStrand` is `GenomicRegion.with_strand`,
   * `distanceTo(a, b)` is `a.distance_to(b)`,
   * `regionLength` is `len(region)`.
   */
  datatype GenomeInterface = GenomeInterface(
    contigByName: string -> Option<Contig>,
    withStrand: (GenomicRegion, Strand) -> GenomicRegion,
    distanceTo: (GenomicRegion, GenomicRegion) -> int,
    regionLength: GenomicRegion -> nat)
}
