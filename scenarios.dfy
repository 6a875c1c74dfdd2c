/** Worked examples: the synchroniser and the voice locator on small concrete inputs. */
module Scenarios {
  import opened Results
  import opened Sequences
  import opened Splitter
  import opened Synchronizer
  import opened LmxeProperties
  import opened Mxl

  /** One page of one system holding two measures, each the single token `note`. */
  const TwoMeasures: Stream := [MeasureMarker, "note", MeasureMarker, "note"]
  /** The same page with one measure more. */
  const ThreeMeasures: Stream := [MeasureMarker, "note", MeasureMarker, "note", MeasureMarker, "note"]

  /** Two pages of two measures. */
  const Voice: Stream := TwoMeasures + [PageMarker] + TwoMeasures
  /** Two pages, the first with an extra measure marker. */
  const VoiceWithExtraMeasure: Stream := ThreeMeasures + [PageMarker] + TwoMeasures


  lemma TwoMeasuresSplit()
    ensures Split(TwoMeasures, MeasureMarker, false) == [["note"], ["note"]]
  {
    var m := MeasureMarker;
    assert "note" != m;
    SplitFromRun(["note"], [m, "note"], m, false, []);
    assert TwoMeasures[1..] == ["note"] + [m, "note"];
    assert [m, "note"][1..] == ["note"] + [];
    SplitFromRun(["note"], [], m, false, []);
    assert [] + ["note"] == ["note"];
  }

  lemma ThreeMeasuresSplit()
    ensures Split(ThreeMeasures, MeasureMarker, false) == [["note"], ["note"], ["note"]]
  {
    var m := MeasureMarker;
    assert "note" != m;
    assert ThreeMeasures[1..] == ["note"] + TwoMeasures;
    SplitFromRun(["note"], TwoMeasures, m, false, []);
    assert [] + ["note"] == ["note"];
    calc {
      Split(ThreeMeasures, m, false);
      SplitFrom(ThreeMeasures[1..], m, false, []);
      SplitFrom(TwoMeasures, m, false, ["note"]);
      [["note"]] + SplitFrom(TwoMeasures[1..], m, false, []);
      [["note"]] + Split(TwoMeasures, m, false);
      { TwoMeasuresSplit(); }
      [["note"]] + [["note"], ["note"]];
    }
  }

  /** A voice made of two key-free pages splits into those pages. */
  lemma TwoPages(a: Stream, b: Stream)
    requires a != [] && PageMarker !in a && PageMarker !in b
    ensures Split(a + [PageMarker] + b, PageMarker, false) == [a, b]
  {
    SplitFromRun(a, [PageMarker] + b, PageMarker, false, []);
    assert a + [PageMarker] + b == a + ([PageMarker] + b);
    assert ([PageMarker] + b)[1..] == b && [] + a == a;
    SplitFromRun(b, [], PageMarker, false, []);
    assert b + [] == b && [] + b == b;
  }

  /** Measures of a voice with two single-system pages. */
  lemma MeasuresOfTwoPages(a: Stream, b: Stream)
    requires a != [] && PageMarker !in a && PageMarker !in b
    requires SystemMarker !in a && SystemMarker !in b
    ensures Measures(a + [PageMarker] + b) ==
      [[Split(a, MeasureMarker, false)], [Split(b, MeasureMarker, false)]]
  {
    TwoPages(a, b);
    SplitWithoutKey(a, SystemMarker, false);
    SplitWithoutKey(b, SystemMarker, false);
    var systems := SplitEach([a, b], SystemMarker);
    assert systems == [[a], [b]];
    assert SplitEach(systems[0], MeasureMarker) == [Split(a, MeasureMarker, false)];
    assert SplitEach(systems[1], MeasureMarker) == [Split(b, MeasureMarker, false)];
  }

  /** The shape of a voice whose two pages hold one system of `a` and `b` measures. */
  lemma ShapeOfTwoPages(voice: Stream, a: seq<Stream>, b: seq<Stream>)
    requires Measures(voice) == [[a], [b]]
    ensures Shape(voice) == [[|a|], [|b|]]
  {
    var t := Measures(voice);
    assert Shape(voice)[0] == [|a|];
    assert Shape(voice)[1] == [|b|];
  }

  lemma ShapeOfVoice()
    ensures Measures(Voice) == [[[["note"], ["note"]]], [[["note"], ["note"]]]]
    ensures Shape(Voice) == [[2], [2]]
  {
    MeasuresOfTwoPages(TwoMeasures, TwoMeasures);
    TwoMeasuresSplit();
    ShapeOfTwoPages(Voice, [["note"], ["note"]], [["note"], ["note"]]);
  }

  lemma ShapeOfVoiceWithExtraMeasure()
    ensures Shape(VoiceWithExtraMeasure) == [[3], [2]]
  {
    MeasuresOfTwoPages(ThreeMeasures, TwoMeasures);
    ThreeMeasuresSplit();
    TwoMeasuresSplit();
    ShapeOfTwoPages(VoiceWithExtraMeasure, [["note"], ["note"], ["note"]], [["note"], ["note"]]);
  }

  /** The tokens of the merged line of four one-note measures. */
  const QuartetTokens: seq<string> :=
    ["measure", "part:1", "note", "part:2", "note", "part:3", "note", "part:4", "note"]
  /** That line, `measure part:1 note part:2 note part:3 note part:4 note`. */
  const QuartetLine: string := Join(QuartetTokens)

  lemma TaggedNotes()
    ensures MeasureTokens([["note"], ["note"], ["note"], ["note"]]) == QuartetTokens
  {
    var segs: seq<Stream> := [["note"], ["note"], ["note"], ["note"]];
    assert Tag(1) == "part:1" && Tag(2) == "part:2" && Tag(3) == "part:3" && Tag(4) == "part:4";
    assert segs[..3] == [["note"], ["note"], ["note"]];
    assert segs[..3][..2] == [["note"], ["note"]];
    assert segs[..3][..2][..1] == [["note"]];
    assert segs[..3][..2][..1][..0] == [];
    assert TaggedSegments([["note"]]) == ["part:1", "note"];
    assert TaggedSegments([["note"], ["note"]]) == ["part:1", "note", "part:2", "note"];
    assert TaggedSegments([["note"], ["note"], ["note"]]) == ["part:1", "note", "part:2", "note", "part:3", "note"];
  }

  lemma QuartetLineOfNotes()
    ensures MergedMeasure([["note"], ["note"], ["note"], ["note"]]) == QuartetLine
  {
    TaggedNotes();
  }

  const NoteMeasures: seq<seq<seq<Stream>>> := [[[["note"], ["note"]]], [[["note"], ["note"]]]]

  /** Voices that are all copies of `voice`. */
  predicate Copies(voices: seq<Stream>, voice: Stream)
  {
    forall v :: 0 <= v < |voices| ==> voices[v] == voice
  }

  /** One line of copies of a voice whose every measure is `note`. */
  lemma {:induction false} LineOfCopies(voices: seq<Stream>, voice: Stream, out: Lmxe, p: nat, m: nat)
    requires Copies(voices, voice) && Measures(voice) == NoteMeasures
    requires LmxeOf(voices) == Ok(out)
    requires p < |out| && 0 < |out[p]| && m < |out[p][0]|
    ensures out[p][0][m] == MergedMeasure(seq(|voices|, v => ["note"]))
  {
    LmxeLinesOnSuccess(voices, out, p, 0, m);
    var c := Column(voices, p, 0, m);
    forall v | 0 <= v < |voices|
      ensures c[v] == ["note"]
    {
      assert voices[v] == voice;
      assert p == 0 || p == 1;
      assert m == 0 || m == 1;
    }
    assert c == seq(|voices|, v => ["note"]);
  }

  /** A document of two pages of one system of two lines, all equal to `line`. */
  lemma TwoPagesOfTwoLines(out: Lmxe, line: string)
    requires |out| == 2 && |out[0]| == 1 && |out[1]| == 1 && |out[0][0]| == 2 && |out[1][0]| == 2
    requires out[0][0][0] == line && out[0][0][1] == line && out[1][0][0] == line && out[1][0][1] == line
    ensures out == [[[line, line]], [[line, line]]]
  {
    assert out[0][0] == [line, line] && out[1][0] == [line, line];
    assert out[0] == [[line, line]] && out[1] == [[line, line]];
  }

  /** Copies of one voice always agree. */
  lemma CopiesSucceed(voices: seq<Stream>, voice: Stream)
    requires Copies(voices, voice)
    ensures LmxeOf(voices).Ok?
  {
    LmxeOutcome(voices);
  }

  /** The output for copies of a voice of 2 pages x 1 system x 2 measures. */
  lemma CopiesShape(voices: seq<Stream>, voice: Stream, out: Lmxe)
    requires voices != [] && Copies(voices, voice) && Measures(voice) == NoteMeasures
    requires LmxeOf(voices) == Ok(out)
    ensures |out| == 2 && |out[0]| == 1 && |out[1]| == 1 && |out[0][0]| == 2 && |out[1][0]| == 2
  {
    ShapeOfTwoPages(voice, [["note"], ["note"]], [["note"], ["note"]]);
    LmxeShapeOnSuccess(voices, out);
    assert voices[0] == voice;
    assert ShapeOfLmxe(out) == [[2], [2]];
    assert ShapeOfLmxe(out)[0] == [|out[0][0]|] && ShapeOfLmxe(out)[1] == [|out[1][0]|];
  }

  /** Copies of a voice of 2 pages x 1 system x 2 one-note measures. */
  lemma {:induction false} EndToEndOf(voices: seq<Stream>, voice: Stream)
    requires voices != [] && Copies(voices, voice) && Measures(voice) == NoteMeasures
    ensures LmxeOf(voices).Ok?
    ensures var line := MergedMeasure(seq(|voices|, v => ["note"]));
      LmxeOf(voices).value == [[[line, line]], [[line, line]]]
  {
    CopiesSucceed(voices, voice);
    var out := LmxeOf(voices).value;
    CopiesShape(voices, voice, out);
    LineOfCopies(voices, voice, out, 0, 0);
    LineOfCopies(voices, voice, out, 0, 1);
    LineOfCopies(voices, voice, out, 1, 0);
    LineOfCopies(voices, voice, out, 1, 1);
    TwoPagesOfTwoLines(out, MergedMeasure(seq(|voices|, v => ["note"])));
  }

  /** Four voices of 2 pages x 1 system x 2 one-note measures give 2 pages of one
      system with two identical merged lines each. */
  lemma EndToEnd()
    ensures LmxeOf([Voice, Voice, Voice, Voice]) == Ok([[[QuartetLine, QuartetLine]], [[QuartetLine, QuartetLine]]])
  {
    ShapeOfVoice();
    QuartetLineOfNotes();
    var voices := [Voice, Voice, Voice, Voice];
    EndToEndOf(voices, Voice);
    assert seq(4, v => ["note"]) == [["note"], ["note"], ["note"], ["note"]];
  }

  /** One extra measure marker in one system of one voice is a measure-level mismatch. */
  lemma {:induction false} ExtraMeasureIsMismatch()
    ensures LmxeOf([Voice, Voice, Voice, VoiceWithExtraMeasure]) == Err(MeasureCountMismatch)
  {
    var voices := [Voice, Voice, Voice, VoiceWithExtraMeasure];
    ShapeOfVoice();
    ShapeOfVoiceWithExtraMeasure();
    assert PageCountsAgree(voices);
    assert SystemCountsAgree(voices);
    assert Shape(voices[3])[0][0] != Shape(voices[0])[0][0];
    LmxeOutcome(voices);
  }

  /** When every entry is a string entry, all ids are collected, in order. */
  lemma {:induction false} AllStringEntries(entries: seq<ScorePart>)
    requires forall i :: 0 <= i < |entries| ==> IsStringEntry(entries[i])
    ensures StringPartIds(entries) == seq(|entries|, i requires 0 <= i < |entries| => entries[i].id)
  {
    if entries != [] {
      AllStringEntries(entries[1..]);
    }
  }

  /** A part-list of five violins. */
  const FiveViolins: seq<ScorePart> := [
    ScorePart("P1", Some("Violin"), None), ScorePart("P2", Some("Violin"), None),
    ScorePart("P3", Some("Violin"), None), ScorePart("P4", Some("Violin"), None),
    ScorePart("P5", Some("Violin"), None)]

  /** Five string entries: the first four ids in document order, and a warning. */
  lemma FiveViolinsCappedAtFour()
    ensures |StringPartIds(FiveViolins)| == 5
    ensures ResolvedStringPartIds<int>(Document(Tree("score-partwise", FiveViolins, []))) == Ok(["P1", "P2", "P3", "P4"])
  {
    assert forall i :: 0 <= i < 5 ==> IsStringEntry(FiveViolins[i]);
    AllStringEntries(FiveViolins);
    var ids := StringPartIds(FiveViolins);
    assert ids[..4] == ["P1", "P2", "P3", "P4"];
  }
}
