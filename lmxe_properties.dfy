/** What `score_to_lmxe` guarantees, stated per voice: the page/system/measure shape
    of every voice, the first level at which the voices disagree, the shape and the
    content of the merged result, and the conservation of every voice's tokens. */
module LmxeProperties {
  import opened Results
  import opened Sequences
  import opened Splitter
  import opened Synchronizer

  /** One voice split on its own: pages of systems of measures of tokens. */
  function Measures(voice: Stream): (t: seq<seq<seq<Stream>>>)
  {
    var systems := SplitEach(Split(voice, PageMarker, false), SystemMarker);
    seq(|systems|, p requires 0 <= p < |systems| => SplitEach(systems[p], MeasureMarker))
  }

  /** For every page, for every system, the number of measures. */
  function Shape(voice: Stream): (r: seq<seq<nat>>)
  {
    var t := Measures(voice);
    seq(|t|, p requires 0 <= p < |t| => seq(|t[p]|, s requires 0 <= s < |t[p]| => |t[p][s]|))
  }

  /** For every page, for every system, the number of merged lines. */
  function ShapeOfLmxe(out: Lmxe): (r: seq<seq<nat>>)
  {
    seq(|out|, p requires 0 <= p < |out| => seq(|out[p]|, s requires 0 <= s < |out[p]| => |out[p][s]|))
  }

  predicate PageCountsAgree(voices: seq<Stream>)
  {
    forall v :: 0 <= v < |voices| ==> |Shape(voices[v])| == |Shape(voices[0])|
  }

  predicate SystemCountsAgree(voices: seq<Stream>)
    requires PageCountsAgree(voices)
  {
    forall v, p :: 0 <= v < |voices| && 0 <= p < |Shape(voices[0])| ==>
      |Shape(voices[v])[p]| == |Shape(voices[0])[p]|
  }

  predicate MeasureCountsAgree(voices: seq<Stream>)
    requires PageCountsAgree(voices) && SystemCountsAgree(voices)
  {
    forall v, p, s :: 0 <= v < |voices| && 0 <= p < |Shape(voices[0])| && 0 <= s < |Shape(voices[0])[p]| ==>
      Shape(voices[v])[p][s] == Shape(voices[0])[p][s]
  }

  /** The source's by-level split of all voices is the split of each voice on its own. */
  lemma MeasuresByVoice(voices: seq<Stream>, v: nat)
    requires v < |voices|
    ensures |MeasuresByParts(SystemsByParts(PagesByParts(voices)))| == |voices|
    ensures MeasuresByParts(SystemsByParts(PagesByParts(voices)))[v] == Measures(voices[v])
  {
    var sbp := SystemsByParts(PagesByParts(voices));
    var systems := SplitEach(Split(voices[v], PageMarker, false), SystemMarker);
    assert sbp[v] == systems;
    var mbp := MeasuresByParts(sbp);
    assert |mbp[v]| == |Measures(voices[v])|;
  }

  lemma PageCheck(voices: seq<Stream>)
    ensures SameLengths(PagesByParts(voices)) <==> PageCountsAgree(voices)
  {
    assert forall v :: 0 <= v < |voices| ==> |Shape(voices[v])| == |PagesByParts(voices)[v]|;
  }

  lemma SystemCheck(voices: seq<Stream>)
    requires PageCountsAgree(voices)
    ensures SystemsAgree(SystemsByParts(PagesByParts(voices))) <==> SystemCountsAgree(voices)
  {
    var sbp := SystemsByParts(PagesByParts(voices));
    if voices != [] {
      assert SameLengths(sbp);
      MinLenOfSameLengths(sbp);
      var pz := Zip(sbp);
      assert |pz| == |Shape(voices[0])|;
      if SystemsAgree(sbp) {
        forall v, p | 0 <= v < |voices| && 0 <= p < |Shape(voices[0])|
          ensures |Shape(voices[v])[p]| == |Shape(voices[0])[p]|
        {
          assert SameLengths(pz[p]);
          assert |pz[p][v]| == |pz[p][0]|;
        }
      }
      if SystemCountsAgree(voices) {
        forall p | 0 <= p < |pz| ensures SameLengths(pz[p]) {
          forall v | 0 <= v < |pz[p]| ensures |pz[p][v]| == |pz[p][0]| {
            assert |Shape(voices[v])[p]| == |Shape(voices[0])[p]|;
          }
        }
      }
    }
  }

  /** Sizes of the tuples the source's `zip`s produce at the measure level. */
  lemma MeasureTupleSizes(voices: seq<Stream>)
    requires voices != [] && PageCountsAgree(voices) && SystemCountsAgree(voices)
    ensures var pz := Zip(MeasuresByParts(SystemsByParts(PagesByParts(voices))));
      |pz| == |Shape(voices[0])|
      && (forall p :: 0 <= p < |pz| ==> |Zip(pz[p])| == |Shape(voices[0])[p]|)
      && (forall p, s, v :: 0 <= p < |pz| && 0 <= s < |Zip(pz[p])| && 0 <= v < |voices| ==>
            |Zip(pz[p])[s]| == |voices| && |Zip(pz[p])[s][v]| == Shape(voices[v])[p][s])
  {
    var mbp := MeasuresByParts(SystemsByParts(PagesByParts(voices)));
    assert SameLengths(mbp);
    MinLenOfSameLengths(mbp);
    var pz := Zip(mbp);
    forall p | 0 <= p < |pz| ensures |Zip(pz[p])| == |Shape(voices[0])[p]| {
      assert forall v :: 0 <= v < |voices| ==> |pz[p][v]| == |Shape(voices[v])[p]|;
      assert SameLengths(pz[p]);
      MinLenOfSameLengths(pz[p]);
    }
  }

  lemma MeasureCheckSound(voices: seq<Stream>)
    requires voices != [] && PageCountsAgree(voices) && SystemCountsAgree(voices)
    requires MeasuresAgree(MeasuresByParts(SystemsByParts(PagesByParts(voices))))
    ensures MeasureCountsAgree(voices)
  {
    MeasureTupleSizes(voices);
    var pz := Zip(MeasuresByParts(SystemsByParts(PagesByParts(voices))));
    forall v, p, s | 0 <= v < |voices| && 0 <= p < |Shape(voices[0])| && 0 <= s < |Shape(voices[0])[p]|
      ensures Shape(voices[v])[p][s] == Shape(voices[0])[p][s]
    {
      var sz := Zip(pz[p]);
      assert SameLengths(sz[s]);
      assert |sz[s][v]| == |sz[s][0]|;
    }
  }

  lemma MeasureCheckComplete(voices: seq<Stream>)
    requires voices != [] && PageCountsAgree(voices) && SystemCountsAgree(voices)
    requires MeasureCountsAgree(voices)
    ensures MeasuresAgree(MeasuresByParts(SystemsByParts(PagesByParts(voices))))
  {
    MeasureTupleSizes(voices);
    var pz := Zip(MeasuresByParts(SystemsByParts(PagesByParts(voices))));
    forall p, s | 0 <= p < |pz| && 0 <= s < |Zip(pz[p])| ensures SameLengths(Zip(pz[p])[s]) {
      var sz := Zip(pz[p]);
      forall v | 0 <= v < |sz[s]| ensures |sz[s][v]| == |sz[s][0]| {
        assert Shape(voices[v])[p][s] == Shape(voices[0])[p][s];
      }
    }
  }

  lemma MeasureCheck(voices: seq<Stream>)
    requires PageCountsAgree(voices) && SystemCountsAgree(voices)
    ensures MeasuresAgree(MeasuresByParts(SystemsByParts(PagesByParts(voices)))) <==> MeasureCountsAgree(voices)
  {
    if voices != [] {
      if MeasuresAgree(MeasuresByParts(SystemsByParts(PagesByParts(voices)))) {
        MeasureCheckSound(voices);
      }
      if MeasureCountsAgree(voices) {
        MeasureCheckComplete(voices);
      }
    }
  }

  lemma SameShapeIffCountsAgree(voices: seq<Stream>)
    ensures (forall v :: 0 <= v < |voices| ==> Shape(voices[v]) == Shape(voices[0]))
        <==> PageCountsAgree(voices) && SystemCountsAgree(voices) && MeasureCountsAgree(voices)
  {
    if PageCountsAgree(voices) && SystemCountsAgree(voices) && MeasureCountsAgree(voices) {
      forall v | 0 <= v < |voices| ensures Shape(voices[v]) == Shape(voices[0]) {
        var a, b := Shape(voices[v]), Shape(voices[0]);
        forall p | 0 <= p < |a| ensures a[p] == b[p] {
          assert |a[p]| == |b[p]|;
        }
      }
    }
  }

  /** The source fails at the first level where two voices disagree, and succeeds
      exactly when all voices have one and the same shape. */
  lemma LmxeOutcome(voices: seq<Stream>)
    ensures LmxeOf(voices) == Err(PageCountMismatch) <==> !PageCountsAgree(voices)
    ensures LmxeOf(voices) == Err(SystemCountMismatch) <==>
      PageCountsAgree(voices) && !SystemCountsAgree(voices)
    ensures LmxeOf(voices) == Err(MeasureCountMismatch) <==>
      PageCountsAgree(voices) && SystemCountsAgree(voices) && !MeasureCountsAgree(voices)
    ensures LmxeOf(voices).Ok? <==> forall v :: 0 <= v < |voices| ==> Shape(voices[v]) == Shape(voices[0])
  {
    PageCheck(voices);
    if PageCountsAgree(voices) {
      SystemCheck(voices);
      if SystemCountsAgree(voices) {
        MeasureCheck(voices);
      }
    }
    SameShapeIffCountsAgree(voices);
  }

  // ---- The result on success ----

  predicate HasMeasure(voice: Stream, p: nat, s: nat, m: nat)
  {
    var t := Measures(voice);
    p < |t| && s < |t[p]| && m < |t[p][s]|
  }

  /** The voices' token runs at page `p`, system `s`, measure `m`, in voice order. */
  function Column(voices: seq<Stream>, p: nat, s: nat, m: nat): (r: seq<Stream>)
    requires forall v :: 0 <= v < |voices| ==> HasMeasure(voices[v], p, s, m)
  {
    seq(|voices|, v requires 0 <= v < |voices| && HasMeasure(voices[v], p, s, m) => Measures(voices[v])[p][s][m])
  }

  predicate SameShape(voices: seq<Stream>)
  {
    forall v :: 0 <= v < |voices| ==> Shape(voices[v]) == Shape(voices[0])
  }

  /** One system of the result, when all voices share one shape. */
  lemma SystemOfResult(voices: seq<Stream>, p: nat, s: nat)
    requires voices != [] && SameShape(voices)
    requires p < |Shape(voices[0])| && s < |Shape(voices[0])[p]|
    ensures var pz := Zip(MeasuresByParts(SystemsByParts(PagesByParts(voices))));
      p < |pz| && s < |Zip(pz[p])|
    ensures var pz := Zip(MeasuresByParts(SystemsByParts(PagesByParts(voices))));
      var line := SystemLines(Zip(pz[p])[s]);
      |line| == Shape(voices[0])[p][s]
      && forall m :: 0 <= m < |line| ==>
        (forall v :: 0 <= v < |voices| ==> HasMeasure(voices[v], p, s, m))
        && line[m] == MergedMeasure(Column(voices, p, s, m))
  {
    SameShapeIffCountsAgree(voices);
    MeasureTupleSizes(voices);
    var mbp := MeasuresByParts(SystemsByParts(PagesByParts(voices)));
    var pz := Zip(mbp);
    var st := Zip(pz[p])[s];
    assert SameLengths(st);
    MinLenOfSameLengths(st);
    var line := SystemLines(st);
    forall m | 0 <= m < |line|
      ensures forall v :: 0 <= v < |voices| ==> HasMeasure(voices[v], p, s, m)
      ensures line[m] == MergedMeasure(Column(voices, p, s, m))
    {
      forall v | 0 <= v < |voices|
        ensures HasMeasure(voices[v], p, s, m) && Zip(st)[m][v] == Measures(voices[v])[p][s][m]
      {
        MeasuresByVoice(voices, v);
        assert Zip(st)[m][v] == st[v][m] == mbp[v][p][s][m];
      }
      assert Zip(st)[m] == Column(voices, p, s, m);
    }
  }

  /** On success the result has the voices' common shape: as many pages, as many
      systems on each page and as many lines in each system as every voice has
      pages, systems and measures; with no voices at all it is empty. */
  lemma LmxeShapeOnSuccess(voices: seq<Stream>, out: Lmxe)
    requires LmxeOf(voices) == Ok(out)
    ensures voices == [] ==> out == []
    ensures voices != [] ==> ShapeOfLmxe(out) == Shape(voices[0])
  {
    var mbp := MeasuresByParts(SystemsByParts(PagesByParts(voices)));
    var pz := Zip(mbp);
    assert out == ScoreLines(mbp);
    if voices != [] {
      LmxeOutcome(voices);
      SameShapeIffCountsAgree(voices);
      MeasureTupleSizes(voices);
      var shape := Shape(voices[0]);
      assert |out| == |shape|;
      forall p | 0 <= p < |out| ensures ShapeOfLmxe(out)[p] == shape[p] {
        assert out[p] == PageLines(pz[p]);
        forall s | 0 <= s < |out[p]| ensures |out[p][s]| == shape[p][s] {
          SystemOfResult(voices, p, s);
          assert out[p][s] == SystemLines(Zip(pz[p])[s]);
        }
      }
    }
  }

  /** On success the line at page `p`, system `s`, measure `m` merges exactly the
      voices' token runs at that position, in voice order. */
  lemma LmxeLinesOnSuccess(voices: seq<Stream>, out: Lmxe, p: nat, s: nat, m: nat)
    requires LmxeOf(voices) == Ok(out)
    requires p < |out| && s < |out[p]| && m < |out[p][s]|
    ensures forall v :: 0 <= v < |voices| ==> HasMeasure(voices[v], p, s, m)
    ensures out[p][s][m] == MergedMeasure(Column(voices, p, s, m))
  {
    var mbp := MeasuresByParts(SystemsByParts(PagesByParts(voices)));
    var pz := Zip(mbp);
    assert out == ScoreLines(mbp);
    assert voices != [];
    LmxeOutcome(voices);
    LmxeShapeOnSuccess(voices, out);
    assert ShapeOfLmxe(out)[p][s] == |out[p][s]|;
    SystemOfResult(voices, p, s);
    assert out[p] == PageLines(pz[p]);
    assert out[p][s] == SystemLines(Zip(pz[p])[s]);
  }

  // ---- Conservation of every voice's tokens ----

  /** A voice's stream without its page, system and measure markers. */
  function StripMarkers(voice: Stream): (r: Stream)
  {
    Remove(Remove(Remove(voice, PageMarker), SystemMarker), MeasureMarker)
  }

  /** All token runs of a page/system/measure tree, in traversal order. */
  function Flatten3(t: seq<seq<seq<Stream>>>): (r: Stream)
  {
    Flatten(seq(|t|, p requires 0 <= p < |t| =>
      Flatten(seq(|t[p]|, s requires 0 <= s < |t[p]| => Flatten(t[p][s])))))
  }

  lemma FlattenSplitEach(xs: seq<Stream>, key: string)
    ensures Flatten(seq(|xs|, i requires 0 <= i < |xs| => Flatten(SplitEach(xs, key)[i])))
         == Remove(Flatten(xs), key)
  {
    var ys := seq(|xs|, i requires 0 <= i < |xs| => Flatten(SplitEach(xs, key)[i]));
    forall i | 0 <= i < |xs| ensures ys[i] == Remove(xs[i], key) {
      SplitDropsOnlyKeys(xs[i], key);
    }
    RemoveFlatten(xs, ys, key);
  }

  /** Splitting loses nothing but the markers: the runs of a voice, read page by
      page, system by system and measure by measure, are its stream without markers. */
  lemma TokenConservation(voice: Stream)
    ensures Flatten3(Measures(voice)) == StripMarkers(voice)
  {
    var pages := Split(voice, PageMarker, false);
    var systems := SplitEach(pages, SystemMarker);
    var t := Measures(voice);
    var a := seq(|pages|, p requires 0 <= p < |pages| => Remove(pages[p], SystemMarker));
    var b := seq(|pages|, p requires 0 <= p < |pages| => Remove(a[p], MeasureMarker));
    forall p | 0 <= p < |t|
      ensures Flatten(seq(|t[p]|, s requires 0 <= s < |t[p]| => Flatten(t[p][s]))) == b[p]
    {
      FlattenSplitEach(systems[p], MeasureMarker);
      SplitDropsOnlyKeys(pages[p], SystemMarker);
      assert seq(|t[p]|, s requires 0 <= s < |t[p]| => Flatten(t[p][s]))
          == seq(|systems[p]|, i requires 0 <= i < |systems[p]| => Flatten(SplitEach(systems[p], MeasureMarker)[i]));
    }
    assert seq(|t|, p requires 0 <= p < |t| =>
      Flatten(seq(|t[p]|, s requires 0 <= s < |t[p]| => Flatten(t[p][s])))) == b;
    RemoveFlatten(a, b, MeasureMarker);
    RemoveFlatten(pages, a, SystemMarker);
    SplitDropsOnlyKeys(voice, PageMarker);
  }

  /** `line` is the merged line of `segs`, and voice `v`'s run in it, between its tag
      and the next tag or the end of the line, is `run`. */
  predicate CarriesRun(line: string, segs: seq<Stream>, v: nat, run: Stream)
    requires v < |segs|
  {
    line == MergedMeasure(segs)
    && TagIndex(segs, v) < TagIndex(segs, v + 1) <= |MeasureTokens(segs)|
    && MeasureTokens(segs)[TagIndex(segs, v)] == Tag(v + 1)
    && MeasureTokens(segs)[TagIndex(segs, v) + 1 .. TagIndex(segs, v + 1)] == run
  }

  /** The line at page `p`, system `s`, measure `m` of `out` exists, and voice `v`'s
      run in it is the voice's own measure at that place. */
  predicate RunInLine(voices: seq<Stream>, out: Lmxe, v: nat, p: nat, s: nat, m: nat)
    requires v < |voices|
  {
    p < |out| && s < |out[p]| && m < |out[p][s]|
    && (forall w :: 0 <= w < |voices| ==> HasMeasure(voices[w], p, s, m))
    && CarriesRun(out[p][s][m], Column(voices, p, s, m), v, Measures(voices[v])[p][s][m])
  }

  /** Voice `v`'s run in the line at page `p`, system `s`, measure `m` is its own
      measure `m` of system `s` of page `p`. */
  lemma VoiceRunInLine(voices: seq<Stream>, out: Lmxe, v: nat, p: nat, s: nat, m: nat)
    requires LmxeOf(voices) == Ok(out) && v < |voices|
    requires p < |out| && s < |out[p]| && m < |out[p][s]|
    ensures RunInLine(voices, out, v, p, s, m)
  {
    LmxeLinesOnSuccess(voices, out, p, s, m);
    var col := Column(voices, p, s, m);
    MeasureTokensLayout(col, v);
  }

  /** Every voice's tokens reach the result whole and in order: the result has the
      voice's page/system/measure shape, line `m` of system `s` of page `p` carries the
      voice's measure at that place as its run, and these runs, read page by page,
      system by system and line by line, are the voice's stream without its markers. */
  lemma TokenConservationInOutput(voices: seq<Stream>, out: Lmxe, v: nat)
    requires LmxeOf(voices) == Ok(out) && v < |voices|
    ensures ShapeOfLmxe(out) == Shape(voices[v])
    ensures forall p, s, m :: 0 <= p < |out| && 0 <= s < |out[p]| && 0 <= m < |out[p][s]| ==>
      RunInLine(voices, out, v, p, s, m)
    ensures Flatten3(Measures(voices[v])) == StripMarkers(voices[v])
  {
    OutputShapeOfVoice(voices, out, v);
    LinesCarryRuns(voices, out, v);
    TokenConservation(voices[v]);
  }

  /** On success the result has the shape of every voice. */
  lemma OutputShapeOfVoice(voices: seq<Stream>, out: Lmxe, v: nat)
    requires LmxeOf(voices) == Ok(out) && v < |voices|
    ensures ShapeOfLmxe(out) == Shape(voices[v])
  {
    LmxeOutcome(voices);
    LmxeShapeOnSuccess(voices, out);
  }

  lemma LinesCarryRuns(voices: seq<Stream>, out: Lmxe, v: nat)
    requires LmxeOf(voices) == Ok(out) && v < |voices|
    ensures forall p, s, m :: 0 <= p < |out| && 0 <= s < |out[p]| && 0 <= m < |out[p][s]| ==>
      RunInLine(voices, out, v, p, s, m)
  {
    forall p, s, m | 0 <= p < |out| && 0 <= s < |out[p]| && 0 <= m < |out[p][s]|
      ensures RunInLine(voices, out, v, p, s, m)
    {
      VoiceRunInLine(voices, out, v, p, s, m);
    }
  }

  // ---- Layout of one merged line ----

  /** Where the tag of voice `i` (counting from 0) stands in `MeasureTokens(segs)`. */
  function TagIndex(segs: seq<Stream>, i: nat): (r: nat)
    requires i <= |segs|
  {
    1 + i + |Flatten(segs[..i])|
  }

  lemma {:induction false} TaggedPrefix(segs: seq<Stream>, i: nat)
    requires i <= |segs|
    ensures |TaggedSegments(segs[..i])| <= |TaggedSegments(segs)|
    ensures TaggedSegments(segs)[..|TaggedSegments(segs[..i])|] == TaggedSegments(segs[..i])
    decreases |segs|
  {
    if i == |segs| {
      assert segs[..i] == segs;
    } else {
      var n := |segs| - 1;
      assert segs[..n][..i] == segs[..i];
      TaggedPrefix(segs[..n], i);
    }
  }

  lemma TagIndexSteps(segs: seq<Stream>, i: nat)
    requires i < |segs|
    ensures TagIndex(segs, i + 1) == TagIndex(segs, i) + 1 + |segs[i]|
    ensures TagIndex(segs, i + 1) <= TagIndex(segs, |segs|) == |MeasureTokens(segs)|
  {
    assert segs[..i + 1] == segs[..i] + [segs[i]];
    FlattenAppend(segs[..i], [segs[i]]);
    assert Flatten([segs[i]]) == segs[i] + Flatten([segs[i]][1..]);
    assert segs[..|segs|] == segs;
    assert segs == segs[..i + 1] + segs[i + 1..];
    FlattenAppend(segs[..i + 1], segs[i + 1..]);
  }

  /** Voice `i`'s tag and run inside `TaggedSegments(segs)`, one place before their
      position in the merged line. */
  lemma TaggedSlot(segs: seq<Stream>, i: nat)
    requires i < |segs|
    ensures TagIndex(segs, i + 1) == TagIndex(segs, i) + 1 + |segs[i]|
    ensures TagIndex(segs, i + 1) - 1 <= |TaggedSegments(segs)|
    ensures TaggedSegments(segs)[TagIndex(segs, i) - 1] == Tag(i + 1)
    ensures TaggedSegments(segs)[TagIndex(segs, i) .. TagIndex(segs, i + 1) - 1] == segs[i]
  {
    TagIndexSteps(segs, i);
    var front := TaggedSegments(segs[..i]);
    TaggedSegmentsSnoc(segs, i);
    TaggedPrefix(segs, i + 1);
    assert TagIndex(segs, i) == |front| + 1;
    SlotOfPrefix(TaggedSegments(segs), front, Tag(i + 1), segs[i]);
  }

  /** The tagged runs of the first `i + 1` voices extend those of the first `i`. */
  lemma TaggedSegmentsSnoc(segs: seq<Stream>, i: nat)
    requires i < |segs|
    ensures TaggedSegments(segs[..i + 1]) == TaggedSegments(segs[..i]) + [Tag(i + 1)] + segs[i]
  {
    var p := segs[..i + 1];
    assert |p| - 1 == i && p[..i] == segs[..i] && p[i] == segs[i];
  }

  /** When `front + [tag] + run` is a prefix of `whole`, `tag` and `run` stand in
      `whole` right after `front`. */
  lemma SlotOfPrefix(whole: seq<string>, front: seq<string>, tag: string, run: seq<string>)
    requires |front + [tag] + run| <= |whole|
    requires whole[..|front + [tag] + run|] == front + [tag] + run
    ensures whole[|front|] == tag
    ensures whole[|front| + 1 .. |front| + 1 + |run|] == run
  {
    var upto := front + [tag] + run;
    var k := |front|;
    assert whole[k] == whole[..|upto|][k] == upto[k];
    assert whole[k + 1 .. |upto|] == whole[..|upto|][k + 1 ..];
    assert upto[k + 1 ..] == run;
  }

  /** `measure` comes first; then, for each voice in ascending order, its tag
      `part:<i+1>` immediately followed by its run, so the next tag follows right
      after the run (two tags are adjacent when a run is empty) and the last run
      ends the line. */
  lemma MeasureTokensLayout(segs: seq<Stream>, i: nat)
    requires i < |segs|
    ensures MeasureTokens(segs)[0] == MeasureMarker
    ensures TagIndex(segs, i + 1) == TagIndex(segs, i) + 1 + |segs[i]|
    ensures TagIndex(segs, i + 1) <= TagIndex(segs, |segs|) == |MeasureTokens(segs)|
    ensures MeasureTokens(segs)[TagIndex(segs, i)] == Tag(i + 1)
    ensures MeasureTokens(segs)[TagIndex(segs, i) + 1 .. TagIndex(segs, i + 1)] == segs[i]
  {
    TagIndexSteps(segs, i);
    TaggedSlot(segs, i);
    var whole := TaggedSegments(segs);
    var a := TagIndex(segs, i);
    var b := TagIndex(segs, i + 1);
    assert MeasureTokens(segs)[a] == whole[a - 1];
    assert MeasureTokens(segs)[a + 1 .. b] == whole[a .. b - 1];
  }

  lemma TagHasNoSpace(i: nat)
    ensures NoSpace(Tag(i))
  {
    var t := Tag(i);
    forall j | 0 <= j < |t| ensures t[j] != ' ' {
      if j >= 5 {
        assert t[j] == Decimal(i)[j - 5];
      }
    }
  }

  lemma {:induction false} TaggedNoSpace(segs: seq<Stream>)
    requires forall v, j :: 0 <= v < |segs| && 0 <= j < |segs[v]| ==> NoSpace(segs[v][j])
    ensures forall j :: 0 <= j < |TaggedSegments(segs)| ==> NoSpace(TaggedSegments(segs)[j])
    decreases |segs|
  {
    if segs != [] {
      var n := |segs| - 1;
      TaggedNoSpace(segs[..n]);
      TagHasNoSpace(n + 1);
      var t := TaggedSegments(segs);
      var front := TaggedSegments(segs[..n]);
      assert t == front + [Tag(n + 1)] + segs[n];
      forall j | 0 <= j < |t| ensures NoSpace(t[j]) {
        if j > |front| {
          assert t[j] == segs[n][j - |front| - 1];
        }
      }
    }
  }

  /** When no token holds a space, splitting a merged line at its spaces gives back
      its token list, from which `MeasureTokensLayout` locates every voice's run. */
  lemma MergedMeasureSplitsBack(segs: seq<Stream>)
    requires forall v, j :: 0 <= v < |segs| && 0 <= j < |segs[v]| ==> NoSpace(segs[v][j])
    ensures SplitAtSpaces(MergedMeasure(segs)) == MeasureTokens(segs)
  {
    TaggedNoSpace(segs);
    var ts := MeasureTokens(segs);
    forall j | 0 <= j < |ts| ensures NoSpace(ts[j]) {
      if j > 0 {
        assert ts[j] == TaggedSegments(segs)[j - 1];
      }
    }
    SplitAtSpacesJoin(ts);
  }
}
