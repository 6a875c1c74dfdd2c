/** The split, check and merge part of `score_to_lmxe`.

    The per-voice token streams, which the source obtains from an external linearizer,
    are the input. Each stream is split at page markers, every page at system markers
    and every system at measure markers; the voices must agree on the number of pages,
    on the number of systems of each page and on the number of measures of each
    system. The aligned measures are then merged into one line each,
    `measure part:1 <voice 1> part:2 <voice 2> ...`. */
module Synchronizer {
  import opened Results
  import opened Sequences
  import opened Splitter

  const PageMarker := "<new-page>"
  const SystemMarker := "<new-system>"
  const MeasureMarker := "measure"

  type Stream = seq<string>

  /** Pages of systems of merged measure lines: what `score_to_lmxe` returns. */
  type Lmxe = seq<seq<seq<string>>>

  /** The three failing assertions of the source, one per level. */
  datatype Mismatch = PageCountMismatch | SystemCountMismatch | MeasureCountMismatch

  // ---- The three splitting levels, as the source's comprehensions ----

  /** Every list of tokens split at `key`, markers dropped. */
  function SplitEach(xs: seq<Stream>, key: string): (r: seq<seq<Stream>>)
  {
    seq(|xs|, i requires 0 <= i < |xs| => Split(xs[i], key, false))
  }

  /** `pages_by_parts[v][p]`. */
  function PagesByParts(voices: seq<Stream>): (r: seq<seq<Stream>>)
  {
    SplitEach(voices, PageMarker)
  }

  /** `systems_by_parts[v][p][s]`. */
  function SystemsByParts(pbp: seq<seq<Stream>>): (r: seq<seq<seq<Stream>>>)
  {
    seq(|pbp|, v requires 0 <= v < |pbp| => SplitEach(pbp[v], SystemMarker))
  }

  /** `measures_by_parts[v][p][s][m]`. */
  function MeasuresByParts(sbp: seq<seq<seq<Stream>>>): (r: seq<seq<seq<seq<Stream>>>>)
  {
    seq(|sbp|, v requires 0 <= v < |sbp| =>
      seq(|sbp[v]|, p requires 0 <= p < |sbp[v]| => SplitEach(sbp[v][p], MeasureMarker)))
  }

  // ---- The three checks, over `zip` as the source writes them ----

  predicate SystemsAgree(sbp: seq<seq<seq<Stream>>>)
  {
    var pz := Zip(sbp);
    forall p :: 0 <= p < |pz| ==> SameLengths(pz[p])
  }

  predicate MeasuresAgree(mbp: seq<seq<seq<seq<Stream>>>>)
  {
    var pz := Zip(mbp);
    forall p, s :: 0 <= p < |pz| && 0 <= s < |Zip(pz[p])| ==> SameLengths(Zip(pz[p])[s])
  }

  // ---- Merging ----

  /** The voice tag `part:<i>`. */
  function Tag(i: nat): (r: string)
  {
    "part:" + Decimal(i)
  }

  /** `[part:1] + segs[0] + [part:2] + segs[1] + ...`. */
  function TaggedSegments(segs: seq<Stream>): (r: seq<string>)
    ensures |r| == |segs| + |Flatten(segs)|
  {
    if segs == [] then []
    else
      var n := |segs| - 1;
      assert segs == segs[..n] + [segs[n]];
      FlattenAppend(segs[..n], [segs[n]]);
      assert Flatten([segs[n]]) == segs[n] + Flatten([segs[n]][1..]);
      TaggedSegments(segs[..n]) + [Tag(n + 1)] + segs[n]
  }

  /** The token list `lmx_measure` of one merged measure. */
  function MeasureTokens(segs: seq<Stream>): (r: seq<string>)
  {
    [MeasureMarker] + TaggedSegments(segs)
  }

  /** One merged measure line: the tokens joined by single spaces. */
  function MergedMeasure(segs: seq<Stream>): (r: string)
  {
    Join(MeasureTokens(segs))
  }

  /** The lines of one system: `systemTuple[v]` is voice `v`'s list of measures, and
      `zip(*systemTuple)` pairs them up position by position. */
  function SystemLines(systemTuple: seq<seq<Stream>>): (r: seq<string>)
  {
    var mz := Zip(systemTuple);
    seq(|mz|, m requires 0 <= m < |mz| => MergedMeasure(mz[m]))
  }

  /** The systems of one page: `pageTuple[v]` is voice `v`'s list of systems. */
  function PageLines(pageTuple: seq<seq<seq<Stream>>>): (r: seq<seq<string>>)
  {
    var sz := Zip(pageTuple);
    seq(|sz|, s requires 0 <= s < |sz| => SystemLines(sz[s]))
  }

  /** The pages of the result, from `measures_by_parts`. */
  function ScoreLines(mbp: seq<seq<seq<seq<Stream>>>>): (r: Lmxe)
  {
    var pz := Zip(mbp);
    seq(|pz|, p requires 0 <= p < |pz| => PageLines(pz[p]))
  }

  /** What `score_to_lmxe` computes from the voices' token streams. */
  function LmxeOf(voices: seq<Stream>): (r: Result<Lmxe, Mismatch>)
  {
    var pbp := PagesByParts(voices);
    if !SameLengths(pbp) then Err(PageCountMismatch)
    else
      var sbp := SystemsByParts(pbp);
      if !SystemsAgree(sbp) then Err(SystemCountMismatch)
      else
        var mbp := MeasuresByParts(sbp);
        if !MeasuresAgree(mbp) then Err(MeasureCountMismatch)
        else Ok(ScoreLines(mbp))
  }

  // ---- The imperative assembly ----

  /** The `enumerate` loop building `lmx_measure`, then `' '.join`. */
  method MergeMeasure(segs: seq<Stream>) returns (line: string)
    ensures line == MergedMeasure(segs)
  {
    var lmxMeasure := [MeasureMarker];
    for i := 0 to |segs|
      invariant lmxMeasure == MeasureTokens(segs[..i])
    {
      assert segs[..i + 1][..i] == segs[..i];
      lmxMeasure := lmxMeasure + [Tag(i + 1)] + segs[i];
    }
    assert segs[..|segs|] == segs;
    line := Join(lmxMeasure);
  }

  /** The loop over `zip(*systems)` appending to `lmx_system`. */
  method AssembleSystem(systemTuple: seq<seq<Stream>>) returns (lmxSystem: seq<string>)
    ensures lmxSystem == SystemLines(systemTuple)
  {
    var measureTuples := Zip(systemTuple);
    lmxSystem := [];
    for m := 0 to |measureTuples|
      invariant lmxSystem == SystemLines(systemTuple)[..m]
    {
      var line := MergeMeasure(measureTuples[m]);
      lmxSystem := lmxSystem + [line];
    }
  }

  /** The loop over `zip(*pages)` appending to `lmx_page`. */
  method AssemblePage(pageTuple: seq<seq<seq<Stream>>>) returns (lmxPage: seq<seq<string>>)
    ensures lmxPage == PageLines(pageTuple)
  {
    var systemTuples := Zip(pageTuple);
    lmxPage := [];
    for s := 0 to |systemTuples|
      invariant lmxPage == PageLines(pageTuple)[..s]
    {
      var lmxSystem := AssembleSystem(systemTuples[s]);
      lmxPage := lmxPage + [lmxSystem];
    }
  }

  /** `score_to_lmxe` from the split streams on: the checks, then the nested loops
      appending to `lmx_system`, `lmx_page` and `lmx_score`. */
  method ScoreToLmxe(voices: seq<Stream>) returns (r: Result<Lmxe, Mismatch>)
    ensures r == LmxeOf(voices)
  {
    var pagesByParts := PagesByParts(voices);
    if !SameLengths(pagesByParts) {
      return Err(PageCountMismatch);
    }
    var systemsByParts := SystemsByParts(pagesByParts);
    if !SystemsAgree(systemsByParts) {
      return Err(SystemCountMismatch);
    }
    var measuresByParts := MeasuresByParts(systemsByParts);
    if !MeasuresAgree(measuresByParts) {
      return Err(MeasureCountMismatch);
    }
    var pageTuples := Zip(measuresByParts);
    var lmxScore: Lmxe := [];
    for p := 0 to |pageTuples|
      invariant lmxScore == ScoreLines(measuresByParts)[..p]
    {
      var lmxPage := AssemblePage(pageTuples[p]);
      lmxScore := lmxScore + [lmxPage];
    }
    assert lmxScore == ScoreLines(measuresByParts);
    r := Ok(lmxScore);
  }
}
