/**
 * Building transcripts from GTF rows: the strand parser and the per-transcript
 * selection of 5'UTR regions. The rows arrive already parsed; the UTR rows
 * arrive already grouped by transcript identifier, one group per identifier.
 */
module GtfIo {
  import opened Outcomes
  import opened Genome
  import opened Model

  /**
   * One GTF row, reduced to the columns kept: the contig name, the feature, the
   * 1-based inclusive coordinates, the strand symbol and the `transcript_id`
   * attribute (None when the row has none).
   */
  datatype GtfRow = GtfRow(seqname: string, feature: string, start: int, end: int, strand: string, transcriptId: Option<string>)

  /** The UTR rows of one transcript identifier, in file order. */
  datatype UtrGroup = UtrGroup(transcriptId: string, rows: seq<GtfRow>)

  /** Grouping never yields an empty group. */
  predicate NonEmptyGroups(groups: seq<UtrGroup>) {
    forall k :: 0 <= k < |groups| ==> |groups[k].rows| > 0
  }

  // ---------------------------------------------------------------------------
  // Strands
  // ---------------------------------------------------------------------------

  /** `parse_strand`. */
  function ParseStrand(val: string): Result<Strand> {
    if val == "+" then Success(Positive)
    else if val == "-" then Success(Negative)
    else Failure(UnknownStrand(val))
  }

  /** The symbol a GTF file uses for a strand. */
  function StrandSymbol(s: Strand): string {
    match s
    case Positive => "+"
    case Negative => "-"
  }

  /** "+" is the positive strand, "-" the negative one, and every other value is an unknown strand. */
  lemma ParseStrandCases(val: string)
    ensures ParseStrand(val) == Success(Positive) <==> val == "+"
    ensures ParseStrand(val) == Success(Negative) <==> val == "-"
    ensures ParseStrand(val).Failure? <==> val != "+" && val != "-"
    ensures ParseStrand(val).Failure? ==> ParseStrand(val).error == UnknownStrand(val)
  {
  }

  /** Parsing is the inverse of writing a strand's symbol. */
  lemma ParseStrandInvertsSymbol(s: Strand, val: string)
    ensures ParseStrand(StrandSymbol(s)) == Success(s)
    ensures ParseStrand(val) == Success(s) ==> StrandSymbol(s) == val
  {
  }

  // ---------------------------------------------------------------------------
  // Regions of rows
  // ---------------------------------------------------------------------------

  /** The row covers the 1-based position `q`. */
  predicate RowCovers(row: GtfRow, q: int) {
    row.start <= q <= row.end
  }

  /** The half-open region holds the 0-based position `p`. */
  predicate RegionHolds(r: GenomicRegion, p: int) {
    r.start <= p < r.end
  }

  /**
   * The 1-based inclusive coordinates of a row as a 0-based half-open region
   * on the positive strand: it holds the 0-based position `p` exactly when the
   * row covers the 1-based position `p + 1`.
   */
  function PositiveRegion(contig: Contig, row: GtfRow): (r: GenomicRegion)
    ensures r.contig == contig && r.strand == Positive
    ensures forall p :: RegionHolds(r, p) <==> RowCovers(row, p + 1)
    ensures r.end - r.start == row.end - row.start + 1
  {
    GenomicRegion(contig, row.start - 1, row.end, Positive)
  }

  /** The row's strand is parsed, then its positive-strand region is viewed on that strand. */
  function RowRegion(contig: Contig, row: GtfRow, genome: GenomeInterface): Result<GenomicRegion> {
    match ParseStrand(row.strand)
    case Failure(e) => Failure(e)
    case Success(strand) => Success(genome.withStrand(PositiveRegion(contig, row), strand))
  }

  /** The row is a start codon of the given transcript. */
  predicate IsStartCodonOf(row: GtfRow, txId: string) {
    row.feature == "start_codon" && row.transcriptId == Some(txId)
  }

  /** The start codon rows of a transcript, in file order. */
  function StartCodonRows(rows: seq<GtfRow>, txId: string): (r: seq<GtfRow>)
    ensures forall k :: 0 <= k < |r| ==> IsStartCodonOf(r[k], txId)
    ensures forall k :: 0 <= k < |rows| && IsStartCodonOf(rows[k], txId) ==> rows[k] in r
  {
    if rows == [] then []
    else (if IsStartCodonOf(rows[0], txId) then [rows[0]] else []) + StartCodonRows(rows[1..], txId)
  }

  lemma {:induction false} StartCodonRowsOfConcat(a: seq<GtfRow>, b: seq<GtfRow>, txId: string)
    ensures StartCodonRows(a + b, txId) == StartCodonRows(a, txId) + StartCodonRows(b, txId)
  {
    if a == [] {
      assert a + b == b;
    } else {
      assert (a + b)[1..] == a[1..] + b;
      StartCodonRowsOfConcat(a[1..], b, txId);
    }
  }

  /**
   * The regions of the UTR rows, in row order, keeping those whose distance to
   * the start codon is not negative; an unknown strand anywhere is an error.
   */
  function KeptRegions(utrRows: seq<GtfRow>, startCodon: GenomicRegion, contig: Contig, genome: GenomeInterface): Result<seq<GenomicRegion>> {
    if utrRows == [] then Success([])
    else
      match KeptRegions(utrRows[..|utrRows| - 1], startCodon, contig, genome)
      case Failure(e) => Failure(e)
      case Success(kept) =>
        match RowRegion(contig, utrRows[|utrRows| - 1], genome)
        case Failure(e) => Failure(e)
        case Success(region) =>
          if genome.distanceTo(region, startCodon) >= 0 then Success(kept + [region]) else Success(kept)
  }

  /** The row is kept: its strand is known and its region is not behind the start codon. */
  predicate KeepsRow(row: GtfRow, startCodon: GenomicRegion, contig: Contig, genome: GenomeInterface) {
    RowRegion(contig, row, genome).Success?
    && genome.distanceTo(RowRegion(contig, row, genome).value, startCodon) >= 0
  }

  /** Once a prefix of the rows fails, the whole list fails with the same error. */
  lemma {:induction false} KeptRegionsFailureSticks(utrRows: seq<GtfRow>, j: nat, startCodon: GenomicRegion, contig: Contig, genome: GenomeInterface)
    requires j <= |utrRows|
    requires KeptRegions(utrRows[..j], startCodon, contig, genome).Failure?
    ensures KeptRegions(utrRows, startCodon, contig, genome) == KeptRegions(utrRows[..j], startCodon, contig, genome)
    decreases |utrRows|
  {
    if j < |utrRows| {
      var front := utrRows[..|utrRows| - 1];
      assert front[..j] == utrRows[..j];
      KeptRegionsFailureSticks(front, j, startCodon, contig, genome);
    } else {
      assert utrRows[..j] == utrRows;
    }
  }

  /** The regions are kept exactly when every row's strand is known. */
  lemma {:induction false} KeptRegionsFailWithUnknownStrand(utrRows: seq<GtfRow>, startCodon: GenomicRegion, contig: Contig, genome: GenomeInterface)
    ensures KeptRegions(utrRows, startCodon, contig, genome).Failure?
            <==> exists j :: 0 <= j < |utrRows| && ParseStrand(utrRows[j].strand).Failure?
    ensures KeptRegions(utrRows, startCodon, contig, genome).Failure?
            ==> KeptRegions(utrRows, startCodon, contig, genome).error.UnknownStrand?
  {
    if utrRows != [] {
      var n := |utrRows| - 1;
      var front := utrRows[..n];
      KeptRegionsFailWithUnknownStrand(front, startCodon, contig, genome);
      if exists j :: 0 <= j < n && ParseStrand(front[j].strand).Failure? {
        var j :| 0 <= j < n && ParseStrand(front[j].strand).Failure?;
        assert utrRows[j] == front[j];
      }
      if exists j :: 0 <= j < |utrRows| && ParseStrand(utrRows[j].strand).Failure? {
        var j :| 0 <= j < |utrRows| && ParseStrand(utrRows[j].strand).Failure?;
        if j < n {
          assert front[j] == utrRows[j];
        }
      }
    }
  }

  /**
   * The kept regions are the regions of the kept rows, in row order: `idx`
   * lists the positions of the kept rows, ascending, and holds every position
   * whose row is kept and no other; each kept region is not behind the start codon.
   */
  lemma {:induction false} KeptRegionsInRowOrder(utrRows: seq<GtfRow>, startCodon: GenomicRegion, contig: Contig, genome: GenomeInterface)
    returns (idx: seq<nat>)
    requires KeptRegions(utrRows, startCodon, contig, genome).Success?
    ensures var kept := KeptRegions(utrRows, startCodon, contig, genome).value;
      && |idx| == |kept|
      && (forall k :: 0 <= k < |idx| ==> idx[k] < |utrRows| && RowRegion(contig, utrRows[idx[k]], genome) == Success(kept[k]))
      && (forall k, l :: 0 <= k < l < |idx| ==> idx[k] < idx[l])
      && (forall j :: 0 <= j < |utrRows| ==> (j in idx <==> KeepsRow(utrRows[j], startCodon, contig, genome)))
      && (forall k :: 0 <= k < |kept| ==> genome.distanceTo(kept[k], startCodon) >= 0)
  {
    if utrRows == [] {
      idx := [];
    } else {
      var n := |utrRows| - 1;
      var front := utrRows[..n];
      var before := KeptRegionsInRowOrder(front, startCodon, contig, genome);
      forall j | 0 <= j < n
        ensures utrRows[j] == front[j]
      {
      }
      if KeepsRow(utrRows[n], startCodon, contig, genome) {
        idx := before + [n];
      } else {
        idx := before;
      }
    }
  }

  // ---------------------------------------------------------------------------
  // Transcripts
  // ---------------------------------------------------------------------------

  /**
   * What one group of UTR rows contributes: nothing when its contig is unknown,
   * when its transcript has no start codon row, or when no UTR row is kept;
   * otherwise the transcript with the kept regions. Only the first start codon
   * row of the transcript is used.
   */
  function GroupTranscript(group: UtrGroup, rows: seq<GtfRow>, genome: GenomeInterface): Result<Option<Transcript>>
    requires |group.rows| > 0
  {
    match genome.contigByName(group.rows[0].seqname)
    case None => Success(None)
    case Some(contig) =>
      var startCodons := StartCodonRows(rows, group.transcriptId);
      if |startCodons| == 0 then Success(None)
      else
        match RowRegion(contig, startCodons[0], genome)
        case Failure(e) => Failure(e)
        case Success(startCodon) =>
          match KeptRegions(group.rows, startCodon, contig, genome)
          case Failure(e) => Failure(e)
          case Success(kept) =>
            if |kept| == 0 then Success(None)
            else Success(Some(Transcript(group.transcriptId, FiveUTR(kept))))
  }

  /** A group whose contig is unknown is skipped, without an error even when its strands are bad. */
  lemma GroupWithoutContigIsSkipped(group: UtrGroup, rows: seq<GtfRow>, genome: GenomeInterface)
    requires |group.rows| > 0
    requires genome.contigByName(group.rows[0].seqname).None?
    ensures GroupTranscript(group, rows, genome) == Success(None)
  {
  }

  /** A transcript without a start codon row yields nothing. */
  lemma GroupWithoutStartCodonIsDropped(group: UtrGroup, rows: seq<GtfRow>, genome: GenomeInterface)
    requires |group.rows| > 0
    requires forall k :: 0 <= k < |rows| ==> !IsStartCodonOf(rows[k], group.transcriptId)
    ensures GroupTranscript(group, rows, genome) == Success(None)
  {
    var starts := StartCodonRows(rows, group.transcriptId);
    if |starts| > 0 {
      assert IsStartCodonOf(starts[0], group.transcriptId);
      StartCodonRowsComeFromRows(rows, group.transcriptId, 0);
    }
  }

  lemma {:induction false} StartCodonRowsComeFromRows(rows: seq<GtfRow>, txId: string, k: nat)
    requires k < |StartCodonRows(rows, txId)|
    ensures StartCodonRows(rows, txId)[k] in rows
  {
    if IsStartCodonOf(rows[0], txId) {
      if k > 0 {
        StartCodonRowsComeFromRows(rows[1..], txId, k - 1);
      }
    } else {
      StartCodonRowsComeFromRows(rows[1..], txId, k);
    }
  }

  /**
   * A transcript that is produced carries the group's identifier and at least
   * one region; its regions are the kept UTR regions, each not behind the region
   * of the transcript's first start codon row.
   */
  lemma GroupTranscriptShape(group: UtrGroup, rows: seq<GtfRow>, genome: GenomeInterface)
    requires |group.rows| > 0
    requires GroupTranscript(group, rows, genome).Success? && GroupTranscript(group, rows, genome).value.Some?
    ensures var t := GroupTranscript(group, rows, genome).value.value;
      var contig := genome.contigByName(group.rows[0].seqname);
      var startCodons := StartCodonRows(rows, group.transcriptId);
      && t.txId == group.transcriptId
      && contig.Some? && |startCodons| > 0
      && RowRegion(contig.value, startCodons[0], genome).Success?
      && var startCodon := RowRegion(contig.value, startCodons[0], genome).value;
         && KeptRegions(group.rows, startCodon, contig.value, genome) == Success(t.fiveUtr.regions)
         && |t.fiveUtr.regions| > 0
         && forall k :: 0 <= k < |t.fiveUtr.regions| ==> genome.distanceTo(t.fiveUtr.regions[k], startCodon) >= 0
  {
    var contig := genome.contigByName(group.rows[0].seqname).value;
    var startCodon := RowRegion(contig, StartCodonRows(rows, group.transcriptId)[0], genome).value;
    var _ := KeptRegionsInRowOrder(group.rows, startCodon, contig, genome);
  }

  /**
   * A group with a known contig and a start codon whose UTR rows all parse and
   * keep at least one region yields the transcript of the group's identifier
   * with exactly those regions.
   */
  lemma GroupTranscriptEmitted(group: UtrGroup, rows: seq<GtfRow>, genome: GenomeInterface,
                               contig: Contig, startCodon: GenomicRegion, kept: seq<GenomicRegion>)
    requires |group.rows| > 0
    requires genome.contigByName(group.rows[0].seqname) == Some(contig)
    requires |StartCodonRows(rows, group.transcriptId)| > 0
    requires RowRegion(contig, StartCodonRows(rows, group.transcriptId)[0], genome) == Success(startCodon)
    requires KeptRegions(group.rows, startCodon, contig, genome) == Success(kept)
    requires |kept| > 0
    ensures GroupTranscript(group, rows, genome) == Success(Some(Transcript(group.transcriptId, FiveUTR(kept))))
  {
  }

  /** Start codon rows after the first one of the transcript change nothing. */
  lemma GroupUsesFirstStartCodon(group: UtrGroup, rows: seq<GtfRow>, later: seq<GtfRow>, genome: GenomeInterface)
    requires |group.rows| > 0
    requires exists k :: 0 <= k < |rows| && IsStartCodonOf(rows[k], group.transcriptId)
    ensures GroupTranscript(group, rows + later, genome) == GroupTranscript(group, rows, genome)
  {
    StartCodonRowsOfConcat(rows, later, group.transcriptId);
    var starts := StartCodonRows(rows, group.transcriptId);
    assert |starts| > 0;
    assert (starts + StartCodonRows(later, group.transcriptId))[0] == starts[0];
  }

  /** The transcripts of all groups, in group order; the first error raised stops everything. */
  function SelectTranscripts(groups: seq<UtrGroup>, rows: seq<GtfRow>, genome: GenomeInterface): Result<seq<Transcript>>
    requires NonEmptyGroups(groups)
  {
    if groups == [] then Success([])
    else
      var n := |groups| - 1;
      assert NonEmptyGroups(groups[..n]);
      match SelectTranscripts(groups[..n], rows, genome)
      case Failure(e) => Failure(e)
      case Success(ts) =>
        match GroupTranscript(groups[n], rows, genome)
        case Failure(e) => Failure(e)
        case Success(None) => Success(ts)
        case Success(Some(t)) => Success(ts + [t])
  }

  /** Once a prefix of the groups fails, the whole list fails with the same error. */
  lemma {:induction false} SelectFailureSticks(groups: seq<UtrGroup>, j: nat, rows: seq<GtfRow>, genome: GenomeInterface)
    requires NonEmptyGroups(groups)
    requires j <= |groups|
    requires NonEmptyGroups(groups[..j]) && SelectTranscripts(groups[..j], rows, genome).Failure?
    ensures SelectTranscripts(groups, rows, genome) == SelectTranscripts(groups[..j], rows, genome)
    decreases |groups|
  {
    if j < |groups| {
      var front := groups[..|groups| - 1];
      assert front[..j] == groups[..j];
      SelectFailureSticks(front, j, rows, genome);
    } else {
      assert groups[..j] == groups;
    }
  }

  /**
   * Every transcript comes from its own group, in group order: `idx` lists the
   * positions of the groups that produced one, ascending, so no group produces
   * more than one; every other group produced nothing.
   */
  lemma {:induction false} SelectTranscriptsPerGroup(groups: seq<UtrGroup>, rows: seq<GtfRow>, genome: GenomeInterface)
    returns (idx: seq<nat>)
    requires NonEmptyGroups(groups)
    requires SelectTranscripts(groups, rows, genome).Success?
    ensures ProducedBy(groups, rows, genome, idx, SelectTranscripts(groups, rows, genome).value)
  {
    if groups == [] {
      idx := [];
    } else {
      var n := |groups| - 1;
      var front := groups[..n];
      assert NonEmptyGroups(front);
      var before := SelectTranscriptsPerGroup(front, rows, genome);
      var ts := SelectTranscripts(front, rows, genome).value;
      var last := GroupTranscript(groups[n], rows, genome).value;
      if last.Some? {
        assert SelectTranscripts(groups, rows, genome).value == ts + [last.value];
        idx := before + [n];
      } else {
        assert SelectTranscripts(groups, rows, genome).value == ts;
        idx := before;
      }
      ProducedByExtends(groups, rows, genome, before, ts, idx, SelectTranscripts(groups, rows, genome).value);
    }
  }

  /**
   * `idx` lists, ascending, the positions of the groups that produced the
   * transcripts `ts`, one each; every other group produced nothing.
   */
  predicate ProducedBy(groups: seq<UtrGroup>, rows: seq<GtfRow>, genome: GenomeInterface, idx: seq<nat>, ts: seq<Transcript>)
    requires NonEmptyGroups(groups)
  {
    && |idx| == |ts|
    && (forall k :: 0 <= k < |idx| ==> idx[k] < |groups| && GroupTranscript(groups[idx[k]], rows, genome) == Success(Some(ts[k])))
    && (forall k, l :: 0 <= k < l < |idx| ==> idx[k] < idx[l])
    && (forall j :: 0 <= j < |groups| && j !in idx ==> GroupTranscript(groups[j], rows, genome) == Success(None))
  }

  lemma ProducedByExtends(groups: seq<UtrGroup>, rows: seq<GtfRow>, genome: GenomeInterface,
                          before: seq<nat>, ts: seq<Transcript>, idx: seq<nat>, ts': seq<Transcript>)
    requires NonEmptyGroups(groups) && |groups| > 0
    requires NonEmptyGroups(groups[..|groups| - 1])
    requires ProducedBy(groups[..|groups| - 1], rows, genome, before, ts)
    requires GroupTranscript(groups[|groups| - 1], rows, genome).Success?
    requires var last := GroupTranscript(groups[|groups| - 1], rows, genome).value;
      if last.Some? then idx == before + [|groups| - 1] && ts' == ts + [last.value]
      else idx == before && ts' == ts
    ensures ProducedBy(groups, rows, genome, idx, ts')
  {
    var n := |groups| - 1;
    forall j | 0 <= j < n
      ensures groups[..n][j] == groups[j]
    {
    }
  }

  /** With one group per transcript identifier, no identifier is produced twice. */
  lemma SelectTranscriptsHaveDistinctIds(groups: seq<UtrGroup>, rows: seq<GtfRow>, genome: GenomeInterface)
    requires NonEmptyGroups(groups)
    requires forall j, l :: 0 <= j < l < |groups| ==> groups[j].transcriptId != groups[l].transcriptId
    requires SelectTranscripts(groups, rows, genome).Success?
    ensures var ts := SelectTranscripts(groups, rows, genome).value;
      && |ts| <= |groups|
      && forall k, l :: 0 <= k < l < |ts| ==> ts[k].txId != ts[l].txId
  {
    var ts := SelectTranscripts(groups, rows, genome).value;
    var idx := SelectTranscriptsPerGroup(groups, rows, genome);
    forall k | 0 <= k < |ts|
      ensures ts[k].txId == groups[idx[k]].transcriptId
    {
      GroupTranscriptShape(groups[idx[k]], rows, genome);
    }
    IncreasingIndicesAreFew(idx, |groups|);
  }

  lemma {:induction false} IncreasingIndicesAreFew(idx: seq<nat>, bound: nat)
    requires forall k :: 0 <= k < |idx| ==> idx[k] < bound
    requires forall k, l :: 0 <= k < l < |idx| ==> idx[k] < idx[l]
    ensures |idx| <= bound
  {
    if idx != [] {
      var n := |idx| - 1;
      IncreasingIndicesAreFew(idx[..n], idx[n]);
    }
  }

  /**
   * The only error selection raises is an unknown strand. This holds here,
   * where the genome operations are total functions; errors raised inside
   * utrfx.genome are not modelled.
   */
  lemma {:induction false} SelectTranscriptsFailsOnlyOnStrands(groups: seq<UtrGroup>, rows: seq<GtfRow>, genome: GenomeInterface)
    requires NonEmptyGroups(groups)
    requires SelectTranscripts(groups, rows, genome).Failure?
    ensures SelectTranscripts(groups, rows, genome).error.UnknownStrand?
  {
    var n := |groups| - 1;
    assert NonEmptyGroups(groups[..n]);
    if SelectTranscripts(groups[..n], rows, genome).Failure? {
      SelectTranscriptsFailsOnlyOnStrands(groups[..n], rows, genome);
    } else {
      var g := groups[n];
      var contig := genome.contigByName(g.rows[0].seqname).value;
      var startCodon := RowRegion(contig, StartCodonRows(rows, g.transcriptId)[0], genome);
      if startCodon.Success? {
        KeptRegionsFailWithUnknownStrand(g.rows, startCodon.value, contig, genome);
      }
    }
  }

  // ---------------------------------------------------------------------------
  // The reading loop
  // ---------------------------------------------------------------------------

  /**
   * The loop of `read_gtf_into_txs` over `utr_df.groupby("transcript_id")`:
   * for each group, look up its contig, take the transcript's first start
   * codon row, collect the UTR regions not behind it and append a transcript
   * when any were collected. An unknown strand aborts the whole reading.
   */
  method ReadGtfIntoTxs(groups: seq<UtrGroup>, rows: seq<GtfRow>, genome: GenomeInterface) returns (r: Result<seq<Transcript>>)
    requires NonEmptyGroups(groups)
    ensures r == SelectTranscripts(groups, rows, genome)
  {
    var transcripts: seq<Transcript> := [];
    var k := 0;
    while k < |groups|
      invariant 0 <= k <= |groups|
      invariant NonEmptyGroups(groups[..k])
      invariant SelectTranscripts(groups[..k], rows, genome) == Success(transcripts)
    {
      var group := groups[k];
      assert groups[..k + 1][..k] == groups[..k] && groups[..k + 1][k] == group;
      assert NonEmptyGroups(groups[..k + 1]);
      var contig := genome.contigByName(group.rows[0].seqname);
      if contig.Some? {
        var startCodon := StartCodonRows(rows, group.transcriptId);
        var tempUtr5primeList: seq<GenomicRegion> := [];
        if |startCodon| > 0 {
          var tempStartCodon := RowRegion(contig.value, startCodon[0], genome);
          if tempStartCodon.Failure? {
            SelectFailureSticks(groups, k + 1, rows, genome);
            return Failure(tempStartCodon.error);
          }
          var j := 0;
          while j < |group.rows|
            invariant 0 <= j <= |group.rows|
            invariant KeptRegions(group.rows[..j], tempStartCodon.value, contig.value, genome) == Success(tempUtr5primeList)
          {
            var row := group.rows[j];
            assert group.rows[..j + 1][..j] == group.rows[..j] && group.rows[..j + 1][j] == row;
            var utrRegion := RowRegion(contig.value, row, genome);
            if utrRegion.Failure? {
              KeptRegionsFailureSticks(group.rows, j + 1, tempStartCodon.value, contig.value, genome);
              SelectFailureSticks(groups, k + 1, rows, genome);
              return Failure(utrRegion.error);
            }
            if genome.distanceTo(utrRegion.value, tempStartCodon.value) >= 0 {
              tempUtr5primeList := tempUtr5primeList + [utrRegion.value];
            }
            j := j + 1;
          }
          assert group.rows[..j] == group.rows;
        }
        if |tempUtr5primeList| > 0 {
          transcripts := transcripts + [Transcript(group.transcriptId, FiveUTR(tempUtr5primeList))];
        }
      }
      k := k + 1;
    }
    assert groups[..k] == groups;
    return Success(transcripts);
  }
}
