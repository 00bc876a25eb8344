/**
 * The sequence-level uORF logic: the 5'UTR and uORF value holders, the
 * extractor of the next uORF, and the feature calculators (GC content,
 * intercistonic distance, downstream windows).
 */
module Uorf {
  import opened Outcomes
  import opened Text

  /** The 5'UTR cDNA sequence of one transcript. */
  datatype FivePrimeSequence = FivePrimeSequence(txId: string, fivePrimeSequence: string) {

    /** `len(five_prime_sequence)`. */
    function Length(): nat {
      |fivePrimeSequence|
    }

    /** `__eq__`: same transcript identifier and same sequence. */
    predicate Equals(other: FivePrimeSequence) {
      txId == other.txId && fivePrimeSequence == other.fivePrimeSequence
    }
  }

  /** One uORF, held as its own nucleotide string, tagged with its transcript. */
  datatype UORF = UORF(txId: string, uorfSequence: string) {

    /** `len(uorf)`. */
    function Length(): nat {
      |uorfSequence|
    }

    /** `__eq__`: same transcript identifier and same sequence. */
    predicate Equals(other: UORF) {
      txId == other.txId && uorfSequence == other.uorfSequence
    }

    /**
     * The uORF string is a substring of the 5'UTR string, exactly as given:
     * neither side is upper-cased here, so the test agrees with `find`.
     */
    predicate IsInFiveUtr(fiveUtr: FivePrimeSequence)
      ensures IsInFiveUtr(fiveUtr) <==> Find(fiveUtr.fivePrimeSequence, uorfSequence) != -1
    {
      Contains(fiveUtr.fivePrimeSequence, uorfSequence)
    }
  }

  /** `FivePrimeSequence.__eq__` coincides with structural equality of the values. */
  lemma FivePrimeSequenceEqualityIsStructural(a: FivePrimeSequence, b: FivePrimeSequence)
    ensures a.Equals(b) <==> a == b
  {
  }

  /** `UORF.__eq__` coincides with structural equality of the values. */
  lemma UorfEqualityIsStructural(u: UORF, v: UORF)
    ensures u.Equals(v) <==> u == v
  {
  }

  // ---------------------------------------------------------------------------
  // Reading a 5'UTR from FASTA text (the file's lines are given; opening it is not modelled)
  // ---------------------------------------------------------------------------

  const FastaExtensions: seq<string> := [".fa", ".fasta", ".fna", ".ffn", ".faa", ".frn"]

  predicate HasFastaExtension(fpath: string) {
    exists k :: 0 <= k < |FastaExtensions| && EndsWith(fpath, FastaExtensions[k])
  }

  /** `"".join(line.strip() for line in lines)`. */
  function JoinStripped(lines: seq<string>): string {
    if lines == [] then "" else JoinStripped(lines[..|lines| - 1]) + Strip(lines[|lines| - 1])
  }

  /**
   * `from_fasta` given the lines the file would yield: an unexpected extension
   * is an error; otherwise the header line is dropped and the remaining lines
   * are stripped and joined.
   */
  function FromFasta(txId: string, fpath: string, lines: seq<string>): (r: Result<FivePrimeSequence>)
    ensures r.Success? <==> HasFastaExtension(fpath)
    ensures r.Failure? ==> r.error == UnexpectedExtension
    ensures r.Success? ==> r.value.txId == txId
  {
    if HasFastaExtension(fpath) then
      Success(FivePrimeSequence(txId, JoinStripped(if lines == [] then [] else lines[1..])))
    else
      Failure(UnexpectedExtension)
  }

  /**
   * A FASTA record whose sequence lines each hold a whitespace-free body
   * followed only by whitespace (the line break) reads back as the bodies
   * joined together.
   */
  lemma {:induction false} FromFastaJoinsSequenceLines(txId: string, fpath: string, header: string, bodies: seq<string>, pads: seq<string>)
    requires HasFastaExtension(fpath)
    requires |pads| == |bodies|
    requires forall k :: 0 <= k < |bodies| ==> forall i :: 0 <= i < |bodies[k]| ==> !IsWhitespace(bodies[k][i])
    requires forall k :: 0 <= k < |pads| ==> AllWhitespace(pads[k])
    ensures FromFasta(txId, fpath, [header] + seq(|bodies|, k requires 0 <= k < |bodies| => bodies[k] + pads[k]))
            == Success(FivePrimeSequence(txId, Concat(bodies)))
  {
    var lines := [header] + seq(|bodies|, k requires 0 <= k < |bodies| => bodies[k] + pads[k]);
    assert lines[1..] == seq(|bodies|, k requires 0 <= k < |bodies| => bodies[k] + pads[k]);
    JoinStrippedOfPaddedLines(bodies, pads);
  }

  lemma {:induction false} JoinStrippedOfPaddedLines(bodies: seq<string>, pads: seq<string>)
    requires |pads| == |bodies|
    requires forall k :: 0 <= k < |bodies| ==> forall i :: 0 <= i < |bodies[k]| ==> !IsWhitespace(bodies[k][i])
    requires forall k :: 0 <= k < |pads| ==> AllWhitespace(pads[k])
    ensures JoinStripped(seq(|bodies|, k requires 0 <= k < |bodies| => bodies[k] + pads[k])) == Concat(bodies)
  {
    var lines := seq(|bodies|, k requires 0 <= k < |bodies| => bodies[k] + pads[k]);
    if bodies != [] {
      var n := |bodies| - 1;
      assert lines[..n] == seq(n, k requires 0 <= k < n => bodies[..n][k] + pads[..n][k]);
      JoinStrippedOfPaddedLines(bodies[..n], pads[..n]);
      StripOfCleanLine(bodies[n], pads[n]);
    }
  }

  // ---------------------------------------------------------------------------
  // Extracting the next uORF
  // ---------------------------------------------------------------------------

  const StopCodons: set<string> := {"TAA", "TAG", "TGA"}

  /** A complete stop codon starts at index `j` of `s`. */
  predicate StopAt(s: string, j: int) {
    0 <= j && j + 3 <= |s| && s[j..j + 3] in StopCodons
  }

  /** Index `j` starts a codon of the reading frame that starts at `i`. */
  predicate InFrame(i: int, j: int) {
    i <= j && (j - i) % 3 == 0
  }

  lemma InFrameStep(i: int, j: int)
    ensures InFrame(i, j) <==> (j == i || InFrame(i + 3, j))
  {
  }

  /**
   * Walking the complete codons of `s` in the frame that starts at `i`: the
   * index just past the first stop codon, or None when the frame runs out of
   * complete codons first.
   */
  function FrameStop(s: string, i: nat): (r: Option<nat>)
    decreases |s| - i
    ensures r.Some? ==> i + 3 <= r.value <= |s|
  {
    if i + 3 > |s| then None
    else if s[i..i + 3] in StopCodons then Some(i + 3)
    else FrameStop(s, i + 3)
  }

  /** A found stop ends a whole number of codons after `i`, and no earlier codon of the frame is a stop. */
  lemma {:induction false} FrameStopFound(s: string, i: nat)
    requires FrameStop(s, i).Some?
    ensures var e := FrameStop(s, i).value;
      && InFrame(i, e - 3)
      && StopAt(s, e - 3)
      && forall j :: InFrame(i, j) && j < e - 3 ==> !StopAt(s, j)
    decreases |s| - i
  {
    if s[i..i + 3] !in StopCodons {
      FrameStopFound(s, i + 3);
      var e := FrameStop(s, i).value;
      InFrameStep(i, e - 3);
      forall j | InFrame(i, j) && j < e - 3
        ensures !StopAt(s, j)
      {
        InFrameStep(i, j);
      }
    }
  }

  /** The frame yields no stop exactly when none of its complete codons is a stop. */
  lemma {:induction false} FrameStopMissing(s: string, i: nat)
    ensures FrameStop(s, i).None? <==> forall j :: InFrame(i, j) ==> !StopAt(s, j)
    decreases |s| - i
  {
    if i + 3 > |s| {
    } else if s[i..i + 3] in StopCodons {
      assert InFrame(i, i) && StopAt(s, i);
    } else {
      FrameStopMissing(s, i + 3);
      forall j | InFrame(i + 3, j)
        ensures InFrame(i, j)
      {
        InFrameStep(i, j);
      }
      forall j | InFrame(i, j) && j != i
        ensures InFrame(i + 3, j)
      {
        InFrameStep(i, j);
      }
    }
  }

  /**
   * What `extract_next_uorf` returns: the sequence is upper-cased, only the
   * first "ATG" is considered, and the uORF runs from it to the end of the first
   * stop codon in its frame; otherwise there is none.
   */
  function NextUorf(f: FivePrimeSequence): Option<UORF> {
    var u := Upper(f.fivePrimeSequence);
    if !Contains(u, "ATG") then None
    else
      var s := Find(u, "ATG");
      match FrameStop(u, s)
      case None => None
      case Some(e) => Some(UORF(f.txId, u[s..e]))
  }

  /**
   * `extract_next_uorf`: steps through the codons from the first "ATG", collects
   * them in a list and returns them joined once a stop codon is appended. The
   * input value is not changed; the rebinding of the local upper-cased copy
   * before the return has no effect outside.
   */
  method ExtractNextUorf(fivePrimeSequence: FivePrimeSequence) returns (r: Option<UORF>)
    ensures r == NextUorf(fivePrimeSequence)
  {
    var fiveSequence := Upper(fivePrimeSequence.fivePrimeSequence);
    ghost var upper := fiveSequence;
    if !Contains(fiveSequence, "ATG") {
      return None;
    }
    var startIndex := Find(fiveSequence, "ATG");
    var codonList: seq<string> := [];
    var n := |fiveSequence|;
    var i := startIndex;
    while i < n - n % 3
      invariant startIndex <= i <= n
      invariant fiveSequence == upper
      invariant Concat(codonList) == upper[startIndex..i]
      invariant FrameStop(upper, i) == FrameStop(upper, startIndex)
    {
      var codon := fiveSequence[i..if i + 3 <= n then i + 3 else n];
      if |codon| < 3 {
        break;
      }
      CodonStep(upper, startIndex, i, codonList);
      codonList := codonList + [codon];
      if codon in StopCodons {
        fiveSequence := fiveSequence[i + 3..];
        return Some(UORF(fivePrimeSequence.txId, Concat(codonList)));
      }
      i := i + 3;
    }
    FrameStopPastLastCodon(upper, i);
    return None;
  }

  /** Appending the codon at `i` to the codons read from `s` on extends the piece they spell by that codon. */
  lemma CodonStep(u: string, s: nat, i: nat, codons: seq<string>)
    requires s <= i && i + 3 <= |u|
    requires Concat(codons) == u[s..i]
    ensures Concat(codons + [u[i..i + 3]]) == u[s..i + 3]
  {
    assert (codons + [u[i..i + 3]])[..|codons|] == codons;
    assert u[s..i] + u[i..i + 3] == u[s..i + 3];
  }

  /** No complete codon starts at or after the last multiple of three below the length. */
  lemma FrameStopPastLastCodon(u: string, i: nat)
    requires i >= |u| - |u| % 3 || i + 3 > |u|
    ensures FrameStop(u, i) == None
  {
  }

  /**
   * The piece of `u` from an "ATG" at `s` to the end of the first stop codon in
   * its frame: a whole number of codons (at least two), "ATG" first, a stop codon
   * last and no stop codon before that.
   */
  lemma {:induction false} FramePieceShape(u: string, s: nat)
    requires OccursAt(u, "ATG", s)
    requires FrameStop(u, s).Some?
    ensures var x := u[s..FrameStop(u, s).value];
      && IsUorfShaped(x)
  {
    var e := FrameStop(u, s).value;
    var x := u[s..e];
    FrameStopFound(u, s);
    assert !StopAt(u, s) by {
      assert u[s..s + 3] == "ATG";
    }
    forall k | 0 <= k < |x| - 3 && k % 3 == 0
      ensures x[k..k + 3] !in StopCodons
    {
      assert x[k..k + 3] == u[s + k..s + k + 3];
      assert InFrame(s, s + k);
      assert !StopAt(u, s + k);
    }
    assert x[..3] == u[s..s + 3];
    assert x[|x| - 3..] == u[e - 3..e];
  }

  /** The shape every extracted uORF has. */
  predicate IsUorfShaped(x: string) {
    && |x| % 3 == 0 && |x| >= 6
    && x[..3] == "ATG"
    && x[|x| - 3..] in StopCodons
    && (forall k :: 0 <= k < |x| - 3 && k % 3 == 0 ==> x[k..k + 3] !in StopCodons)
  }

  /**
   * A uORF that is found is the upper-cased 5'UTR from its first "ATG" onwards,
   * a whole number of codons long (at least two), starting with "ATG", ending
   * with a stop codon and holding no earlier in-frame stop codon.
   */
  lemma NextUorfShape(f: FivePrimeSequence)
    requires NextUorf(f).Some?
    ensures var u := Upper(f.fivePrimeSequence);
      var s := Find(u, "ATG");
      var x := NextUorf(f).value.uorfSequence;
      && NextUorf(f).value.txId == f.txId
      && s >= 0 && (forall j :: 0 <= j < s ==> !OccursAt(u, "ATG", j))
      && s + |x| <= |u| && x == u[s..s + |x|]
      && IsUorfShaped(x)
  {
    var u := Upper(f.fivePrimeSequence);
    FramePieceShape(u, Find(u, "ATG"));
  }

  /**
   * An extracted uORF is a whole number of codons, at least two, and no longer
   * than the 5'UTR it was extracted from.
   */
  lemma ExtractedUorfLength(f: FivePrimeSequence)
    requires NextUorf(f).Some?
    ensures NextUorf(f).value.Length() % 3 == 0
    ensures 6 <= NextUorf(f).value.Length() <= f.Length()
  {
    NextUorfShape(f);
  }

  /**
   * No uORF is found exactly when the upper-cased 5'UTR has no "ATG", or when
   * none of the complete codons in the frame of its first "ATG" is a stop codon;
   * a trailing partial codon never counts.
   */
  lemma NextUorfAbsent(f: FivePrimeSequence)
    ensures var u := Upper(f.fivePrimeSequence);
      NextUorf(f).None? <==>
        (!Contains(u, "ATG")
         || forall j :: Find(u, "ATG") <= j && (j - Find(u, "ATG")) % 3 == 0 ==> !StopAt(u, j))
  {
    var u := Upper(f.fivePrimeSequence);
    if Contains(u, "ATG") {
      FrameStopMissing(u, Find(u, "ATG"));
    }
  }

  // ---------------------------------------------------------------------------
  // Feature calculators
  // ---------------------------------------------------------------------------

  function Min(a: int, b: int): int {
    if a <= b then a else b
  }

  /** GC percentage of a non-empty string: upper-case "G" and "C" over its length, times 100. */
  function GcPercent(s: string): (p: real)
    requires |s| > 0
    ensures 0.0 <= p <= 100.0
    ensures p * |s| as real == (Count(s, 'G') + Count(s, 'C')) as real * 100.0
  {
    CountPairBound(s, 'G', 'C');
    var gc := (Count(s, 'G') + Count(s, 'C')) as real;
    var total := |s| as real;
    assert gc / total <= 1.0 by {
      assert gc <= total;
    }
    (gc / total) * 100.0
  }

  /** `gc_content`: a 0 nt uORF is an error; otherwise its GC percentage. */
  function GcContent(uorf: UORF): (r: Result<real>)
    ensures r.Failure? <==> |uorf.uorfSequence| == 0
    ensures r.Failure? ==> r.error == ZeroLengthUorf
    ensures r.Success? ==> 0.0 <= r.value <= 100.0
    ensures r.Success? ==> r.value * |uorf.uorfSequence| as real
                           == (Count(uorf.uorfSequence, 'G') + Count(uorf.uorfSequence, 'C')) as real * 100.0
  {
    var total := |uorf.uorfSequence|;
    if total == 0 then Failure(ZeroLengthUorf) else Success(GcPercent(uorf.uorfSequence))
  }

  /** The guard shared by the three calculators below: the uORF is in this 5'UTR and of this transcript. */
  predicate Belongs(fiveUtr: FivePrimeSequence, uorf: UORF) {
    uorf.IsInFiveUtr(fiveUtr) && fiveUtr.txId == uorf.txId
  }

  /** The index just past the first occurrence of the uORF in the 5'UTR. */
  function UorfEnd(fiveUtr: FivePrimeSequence, uorf: UORF): (e: nat)
    requires uorf.IsInFiveUtr(fiveUtr)
    ensures |uorf.uorfSequence| <= e <= |fiveUtr.fivePrimeSequence|
    ensures OccursAt(fiveUtr.fivePrimeSequence, uorf.uorfSequence, e - |uorf.uorfSequence|)
    ensures forall j :: 0 <= j < e - |uorf.uorfSequence| ==> !OccursAt(fiveUtr.fivePrimeSequence, uorf.uorfSequence, j)
  {
    Find(fiveUtr.fivePrimeSequence, uorf.uorfSequence) + |uorf.uorfSequence|
  }

  /** The (at most) `n` bases after the uORF's first occurrence, clipped at the end of the 5'UTR. */
  function DownstreamWindow(fiveUtr: FivePrimeSequence, uorf: UORF, n: nat): (w: string)
    requires uorf.IsInFiveUtr(fiveUtr)
    ensures |w| == Min(n, |fiveUtr.fivePrimeSequence| - UorfEnd(fiveUtr, uorf))
    ensures OccursAt(fiveUtr.fivePrimeSequence, w, UorfEnd(fiveUtr, uorf))
  {
    var e := UorfEnd(fiveUtr, uorf);
    fiveUtr.fivePrimeSequence[e..Min(e + n, |fiveUtr.fivePrimeSequence|)]
  }

  /** The uORF's first occurrence and the window after it are adjacent pieces of the 5'UTR. */
  lemma UorfThenWindow(fiveUtr: FivePrimeSequence, uorf: UORF, n: nat)
    requires uorf.IsInFiveUtr(fiveUtr)
    ensures OccursAt(fiveUtr.fivePrimeSequence, uorf.uorfSequence + DownstreamWindow(fiveUtr, uorf, n),
                     UorfEnd(fiveUtr, uorf) - |uorf.uorfSequence|)
  {
    var e := UorfEnd(fiveUtr, uorf);
    AdjacentPieces(fiveUtr.fivePrimeSequence, uorf.uorfSequence, DownstreamWindow(fiveUtr, uorf, n), e - |uorf.uorfSequence|);
  }

  /** Two pieces of `s` that meet join into one piece. */
  lemma AdjacentPieces(s: string, x: string, w: string, b: int)
    requires OccursAt(s, x, b) && OccursAt(s, w, b + |x|)
    ensures OccursAt(s, x + w, b)
  {
    var e := b + |x|;
    assert s[b..e] + s[e..e + |w|] == s[b..e + |w|];
  }

  /**
   * `intercistonic_distance`: the number of bases from just after the uORF's
   * first occurrence to the end of the 5'UTR; an error when the uORF is not a
   * substring of the 5'UTR or belongs to another transcript.
   */
  function IntercistonicDistance(fiveUtr: FivePrimeSequence, uorf: UORF): (r: Result<int>)
    ensures r.Success? <==> Belongs(fiveUtr, uorf)
    ensures r.Failure? ==> r.error == UorfNotInFiveUtr
    ensures r.Success? ==>
      var start := |fiveUtr.fivePrimeSequence| - r.value - |uorf.uorfSequence|;
      && 0 <= r.value <= |fiveUtr.fivePrimeSequence| - |uorf.uorfSequence|
      && OccursAt(fiveUtr.fivePrimeSequence, uorf.uorfSequence, start)
      && forall j :: 0 <= j < start ==> !OccursAt(fiveUtr.fivePrimeSequence, uorf.uorfSequence, j)
  {
    if !uorf.IsInFiveUtr(fiveUtr) || fiveUtr.txId != uorf.txId then
      Failure(UorfNotInFiveUtr)
    else
      var startIndex := UorfEnd(fiveUtr, uorf);
      Success(|fiveUtr.fivePrimeSequence| - startIndex)
  }

  /**
   * `gc_content_of_the_ten_nts_after`: the GC percentage of the up to ten bases
   * after the uORF. An empty window is an error. A window clipped to fewer than
   * ten bases is measured over its own length, a full one over ten, and both
   * branches are the GC percentage of the window.
   */
  function GcContentOfTheTenNtsAfter(fiveUtr: FivePrimeSequence, uorf: UORF): (r: Result<real>)
    ensures r.Failure? <==> !Belongs(fiveUtr, uorf) || UorfEnd(fiveUtr, uorf) == |fiveUtr.fivePrimeSequence|
    ensures r.Failure? ==> r.error == if Belongs(fiveUtr, uorf) then ZeroLengthRegion else UorfNotInFiveUtr
    ensures r.Success? ==> r.value == GcPercent(DownstreamWindow(fiveUtr, uorf, 10))
    ensures r.Success? ==> 0.0 <= r.value <= 100.0
  {
    if !uorf.IsInFiveUtr(fiveUtr) || fiveUtr.txId != uorf.txId then
      Failure(UorfNotInFiveUtr)
    else
      var tenNtAfter := DownstreamWindow(fiveUtr, uorf, 10);
      var total := |tenNtAfter|;
      if total == 0 then
        Failure(ZeroLengthRegion)
      else if total < 10 then
        Success(GcPercent(tenNtAfter))
      else
        var g := Count(tenNtAfter, 'G');
        var c := Count(tenNtAfter, 'C');
        GcPercentOverTen(tenNtAfter);
        Success(((g + c) as real / 10.0) * 100.0)
  }

  /** Over exactly ten bases, dividing by ten is dividing by the length. */
  lemma GcPercentOverTen(s: string)
    requires |s| == 10
    ensures GcPercent(s) == ((Count(s, 'G') + Count(s, 'C')) as real / 10.0) * 100.0
  {
  }

  /**
   * `uorfs_plus_20nt_extractor`: the uORF followed by the up to twenty bases
   * after its first occurrence, which is the piece of the 5'UTR starting where
   * the uORF does. The `twenty_nt_after != 20` test sets a string against
   * the integer 20 and is therefore always true, and both of its branches build
   * the same string, so there is one case.
   */
  function UorfsPlus20ntExtractor(fiveUtr: FivePrimeSequence, uorf: UORF): (r: Result<string>)
    ensures r.Success? <==> Belongs(fiveUtr, uorf)
    ensures r.Failure? ==> r.error == UorfNotInFiveUtr
    ensures r.Success? ==>
      var e := UorfEnd(fiveUtr, uorf);
      && |r.value| == |uorf.uorfSequence| + Min(20, |fiveUtr.fivePrimeSequence| - e)
      && r.value[..|uorf.uorfSequence|] == uorf.uorfSequence
      && OccursAt(fiveUtr.fivePrimeSequence, r.value, e - |uorf.uorfSequence|)
  {
    if !uorf.IsInFiveUtr(fiveUtr) || fiveUtr.txId != uorf.txId then
      Failure(UorfNotInFiveUtr)
    else
      var twentyNtAfter := DownstreamWindow(fiveUtr, uorf, 20);
      UorfThenWindow(fiveUtr, uorf, 20);
      Success(uorf.uorfSequence + twentyNtAfter)
  }

  // ---------------------------------------------------------------------------
  // How the extractor and the calculators fit together
  // ---------------------------------------------------------------------------

  /**
   * A uORF cut from the first "ATG" of a 5'UTR of its own transcript, as
   * `NextUorfShape` describes the extracted one against the upper-cased 5'UTR,
   * is found by the calculators where it was cut, so its intercistonic distance
   * is the number of bases after its stop codon.
   */
  lemma FirstAtgPieceDistance(g: FivePrimeSequence, s: nat, u: UORF)
    requires u.txId == g.txId
    requires forall j :: 0 <= j < s ==> !OccursAt(g.fivePrimeSequence, "ATG", j)
    requires s + |u.uorfSequence| <= |g.fivePrimeSequence| && u.uorfSequence == g.fivePrimeSequence[s..s + |u.uorfSequence|]
    requires |u.uorfSequence| >= 3 && u.uorfSequence[..3] == "ATG"
    ensures Belongs(g, u)
    ensures UorfEnd(g, u) == s + |u.uorfSequence|
    ensures IntercistonicDistance(g, u) == Success(|g.fivePrimeSequence| - (s + |u.uorfSequence|))
  {
    FirstAtgPieceIsFoundFirst(g.fivePrimeSequence, s, u.uorfSequence);
  }

  /** A piece that starts with the first "ATG" of `u` is first found where it was cut. */
  lemma FirstAtgPieceIsFoundFirst(u: string, s: nat, x: string)
    requires forall j :: 0 <= j < s ==> !OccursAt(u, "ATG", j)
    requires s + |x| <= |u| && x == u[s..s + |x|]
    requires |x| >= 3 && x[..3] == "ATG"
    ensures Find(u, x) == s
  {
    assert OccursAt(u, x, s);
    forall j | 0 <= j < s
      ensures !OccursAt(u, x, j)
    {
      if OccursAt(u, x, j) {
        assert u[j..j + 3] == x[..3];
        assert OccursAt(u, "ATG", j);
      }
    }
  }

  /**
   * Upper-casing happens only inside the extractor: from a lower-case 5'UTR it
   * cuts an upper-case uORF, which the substring test, made on the raw
   * sequence, then does not find there.
   */
  lemma LowerCaseFiveUtrLosesItsUorf()
    ensures NextUorf(FivePrimeSequence("tx", "ccatgtaa")) == Some(UORF("tx", "ATGTAA"))
    ensures IntercistonicDistance(FivePrimeSequence("tx", "ccatgtaa"), UORF("tx", "ATGTAA")) == Failure(UorfNotInFiveUtr)
  {
    ExampleExtraction();
    ExampleNotInRaw();
  }

  lemma ExampleExtraction()
    ensures NextUorf(FivePrimeSequence("tx", "ccatgtaa")) == Some(UORF("tx", "ATGTAA"))
  {
    ExampleUpper();
    ExampleFirstAtg();
    ExampleFrameStop();
    assert "CCATGTAA"[2..8] == "ATGTAA";
  }

  lemma ExampleUpper()
    ensures Upper("ccatgtaa") == "CCATGTAA"
  {
    var raw := "ccatgtaa";
    var u := Upper(raw);
    UpperIsPointwise(raw);
    forall i | 0 <= i < 8
      ensures u[i] == "CCATGTAA"[i]
    {
      assert u[i] == UpperChar(raw[i]);
    }
  }

  lemma ExampleFirstAtg()
    ensures Contains("CCATGTAA", "ATG") && Find("CCATGTAA", "ATG") == 2
  {
    var u := "CCATGTAA";
    assert u[0..3] == "CCA" && u[1..4] == "CAT" && u[2..5] == "ATG";
    assert FindFrom(u, "ATG", 2) == 2;
    assert FindFrom(u, "ATG", 1) == 2;
  }

  lemma ExampleFrameStop()
    ensures FrameStop("CCATGTAA", 2) == Some(8)
  {
    var u := "CCATGTAA";
    assert u[2..5] == "ATG" && u[5..8] == "TAA";
  }

  lemma ExampleNotInRaw()
    ensures !Contains("ccatgtaa", "ATGTAA")
  {
    var raw := "ccatgtaa";
    forall j | 0 <= j <= |raw| - 6
      ensures !OccursAt(raw, "ATGTAA", j)
    {
      assert raw[j..j + 6][0] == raw[j] != 'A';
    }
  }
}
