/** The 5'UTR and transcript containers. */
module Model {
  import opened Genome

  /** The genomic regions of one transcript's 5'UTR, in the order they were given. */
  datatype FiveUTR = FiveUTR(regions: seq<GenomicRegion>) {

    /** `__len__`: 0 without regions, otherwise the sum of the regions' lengths. */
    function Length(regionLength: GenomicRegion -> nat): nat {
      if |regions| == 0 then 0 else SumOfLengths(regions, regionLength)
    }
  }

  /** `sum(len(region) for region in regions)`. */
  function SumOfLengths(regions: seq<GenomicRegion>, regionLength: GenomicRegion -> nat): nat {
    if regions == [] then 0 else regionLength(regions[0]) + SumOfLengths(regions[1..], regionLength)
  }

  /** A transcript identifier with the 5'UTR of that transcript. */
  datatype Transcript = Transcript(txId: string, fiveUtr: FiveUTR)

  /** The accessors give back exactly what the constructors were given, in the same order. */
  lemma ContainersKeepTheirArguments(regions: seq<GenomicRegion>, txId: string, fiveUtr: FiveUTR)
    ensures FiveUTR(regions).regions == regions
    ensures Transcript(txId, fiveUtr).txId == txId
    ensures Transcript(txId, fiveUtr).fiveUtr == fiveUtr
  {
  }

  /** A 5'UTR without regions has length 0, and one with a single region has that region's length. */
  lemma FiveUtrLengthOfFewRegions(r: GenomicRegion, regionLength: GenomicRegion -> nat)
    ensures FiveUTR([]).Length(regionLength) == 0
    ensures FiveUTR([r]).Length(regionLength) == regionLength(r)
  {
    assert [r][1..] == [];
    assert SumOfLengths([r], regionLength) == regionLength(r) + SumOfLengths([], regionLength);
  }

  /** The length of the 5'UTR of two region lists put together is the sum of their lengths. */
  lemma {:induction false} FiveUtrLengthIsAdditive(a: seq<GenomicRegion>, b: seq<GenomicRegion>, regionLength: GenomicRegion -> nat)
    ensures FiveUTR(a + b).Length(regionLength) == FiveUTR(a).Length(regionLength) + FiveUTR(b).Length(regionLength)
  {
    SumOfLengthsIsAdditive(a, b, regionLength);
  }

  lemma {:induction false} SumOfLengthsIsAdditive(a: seq<GenomicRegion>, b: seq<GenomicRegion>, regionLength: GenomicRegion -> nat)
    ensures SumOfLengths(a + b, regionLength) == SumOfLengths(a, regionLength) + SumOfLengths(b, regionLength)
  {
    if a == [] {
      assert a + b == b;
    } else {
      assert (a + b)[1..] == a[1..] + b;
      SumOfLengthsIsAdditive(a[1..], b, regionLength);
    }
  }

  /** No single region is longer than the whole 5'UTR. */
  lemma {:induction false} FiveUtrLengthCoversEachRegion(regions: seq<GenomicRegion>, k: nat, regionLength: GenomicRegion -> nat)
    requires k < |regions|
    ensures regionLength(regions[k]) <= FiveUTR(regions).Length(regionLength)
  {
    assert regions == regions[..k] + regions[k..];
    SumOfLengthsIsAdditive(regions[..k], regions[k..], regionLength);
  }
}
