/** The voice locator of `MxlFile`: find the piano part or the four string parts of a
    part-wise MusicXML document by exact membership of their names in fixed lists.

    The document is modelled by what these queries read: the root's tag, the
    `<score-part>` entries of its `<part-list>` (the `id` attribute, the text of
    `score-instrument/instrument-name` and of `part-name`, `None` when an element has
    no text), and its `<part>` children, each an id with content the queries never
    look into. */
module Mxl {
  import opened Results

  datatype ScorePart = ScorePart(id: string, instrumentName: Option<string>, partName: Option<string>)

  datatype Part<C> = Part(id: string, content: C)

  datatype Tree<C> = Tree(rootTag: string, partList: seq<ScorePart>, parts: seq<Part<C>>)

  datatype Document<C> = Document(tree: Tree<C>)

  /** A document accepted by `MxlFile`: its root is `score-partwise`. Every query
      below takes such a document, so none of them sees any other root. */
  type MxlFile<C> = d: Document<C> | d.tree.rootTag == "score-partwise"
    witness Document(Tree("score-partwise", [], []))

  datatype Error =
    | NotPartwise                       // the root check of `__init__`
    | NoPianoPart(partList: seq<ScorePart>) // the exception of `resolve_piano_part_id`, with the part-list
    | PianoPartCount(count: nat)        // `assert len(parts) == 1` of `get_piano_part`
    | NoStringParts                     // `assert len(string_part_ids) > 0`
    | QuartetPartCount(count: nat)      // `assert len(parts) == 4` of `get_string_quartet_parts`

  const PianoInstrumentNames: seq<string> :=
    ["Piano", "Grand Piano", "Acoustic Grand Piano", "Harpsichord", "Pianoforte", "Piano (2)"]
  const PianoPartNames: seq<string> := ["Pianoforte"]
  const StringInstrumentNames: set<string> := {"Violin", "Viola", "Cello", "Violoncello"}
  const StringPartNames: set<string> := {"Violin 1", "Violin 2", "Viola", "Cello", "Violoncello"}

  /** `MxlFile(tree)`: only a part-wise document is accepted. */
  function FromTree<C>(tree: Tree<C>): (r: Result<MxlFile<C>, Error>)
    ensures r.Ok? <==> tree.rootTag == "score-partwise"
    ensures r.Ok? ==> r.value.tree == tree
    ensures r.Err? ==> r.error == NotPartwise
  {
    if tree.rootTag == "score-partwise" then
      var f: MxlFile<C> := Document(tree);
      Ok(f)
    else Err(NotPartwise)
  }

  predicate IsPianoEntry(e: ScorePart)
  {
    (e.instrumentName.Some? && e.instrumentName.value in PianoInstrumentNames)
    || (e.partName.Some? && e.partName.value in PianoPartNames)
  }

  predicate IsStringEntry(e: ScorePart)
  {
    (e.instrumentName.Some? && e.instrumentName.value in StringInstrumentNames)
    || (e.partName.Some? && e.partName.value in StringPartNames)
  }

  // ---- The piano part ----

  /** The loop of `resolve_piano_part_id`, returning at the first match. */
  function FirstPianoId(entries: seq<ScorePart>): (r: Option<string>)
  {
    if entries == [] then None
    else if IsPianoEntry(entries[0]) then Some(entries[0].id)
    else FirstPianoId(entries[1..])
  }

  /** `resolve_piano_part_id`. */
  function ResolvePianoPartId<C>(f: MxlFile<C>): (r: Result<string, Error>)
  {
    match FirstPianoId(f.tree.partList)
    case Some(id) => Ok(id)
    case None => Err(NoPianoPart(f.tree.partList))
  }

  /** The id found is that of the first entry, in document order, whose instrument
      name is a piano name or whose part name is "Pianoforte"; there is an error,
      carrying the part-list, exactly when no entry matches. */
  lemma {:induction false} FirstPianoIdIsFirstMatch(entries: seq<ScorePart>)
    ensures FirstPianoId(entries).None? <==> forall i :: 0 <= i < |entries| ==> !IsPianoEntry(entries[i])
    ensures FirstPianoId(entries).Some? ==>
      exists i :: 0 <= i < |entries| && IsPianoEntry(entries[i])
        && entries[i].id == FirstPianoId(entries).value
        && forall j :: 0 <= j < i ==> !IsPianoEntry(entries[j])
  {
    if entries != [] && !IsPianoEntry(entries[0]) {
      var tail := entries[1..];
      FirstPianoIdIsFirstMatch(tail);
      assert forall i :: 1 <= i < |entries| ==> entries[i] == tail[i - 1];
      if FirstPianoId(tail).Some? {
        var i :| 0 <= i < |tail| && IsPianoEntry(tail[i]) && tail[i].id == FirstPianoId(tail).value
          && forall j :: 0 <= j < i ==> !IsPianoEntry(tail[j]);
        assert IsPianoEntry(entries[i + 1]) && forall j :: 0 <= j < i + 1 ==> !IsPianoEntry(entries[j]);
      }
    } else if entries != [] {
      assert IsPianoEntry(entries[0]);
    }
  }

  lemma ResolvePianoPartIdSpec<C>(f: MxlFile<C>)
    ensures ResolvePianoPartId(f).Err? <==>
      forall i :: 0 <= i < |f.tree.partList| ==> !IsPianoEntry(f.tree.partList[i])
    ensures ResolvePianoPartId(f).Err? ==> ResolvePianoPartId(f).error == NoPianoPart(f.tree.partList)
    ensures ResolvePianoPartId(f).Ok? ==>
      exists i :: 0 <= i < |f.tree.partList|
        && IsPianoEntry(f.tree.partList[i]) && f.tree.partList[i].id == ResolvePianoPartId(f).value
        && forall j :: 0 <= j < i ==> !IsPianoEntry(f.tree.partList[j])
  {
    FirstPianoIdIsFirstMatch(f.tree.partList);
  }

  // ---- Selecting <part> children by id ----

  /** The `<part>` children whose id is in `ids`, in document order. */
  function PartsWithIds<C>(parts: seq<Part<C>>, ids: seq<string>): (r: seq<Part<C>>)
    ensures |r| <= |parts|
    ensures forall j :: 0 <= j < |r| ==> r[j] in parts && r[j].id in ids
    ensures forall i :: 0 <= i < |parts| && parts[i].id in ids ==> parts[i] in r
  {
    if parts == [] then []
    else (if parts[0].id in ids then [parts[0]] else []) + PartsWithIds(parts[1..], ids)
  }

  /** Selection keeps document order: it distributes over concatenation. */
  lemma {:induction false} PartsWithIdsAppend<C>(a: seq<Part<C>>, b: seq<Part<C>>, ids: seq<string>)
    ensures PartsWithIds(a + b, ids) == PartsWithIds(a, ids) + PartsWithIds(b, ids)
  {
    if a == [] {
      assert a + b == b;
    } else {
      assert (a + b)[1..] == a[1..] + b;
      PartsWithIdsAppend(a[1..], b, ids);
    }
  }

  /** The part at document position `i`, when selected, is the result's element
      number `k`, where `k` counts the selected parts before position `i`; so the
      selected parts appear once each, in document order. */
  lemma PartsWithIdsPosition<C>(parts: seq<Part<C>>, ids: seq<string>, i: nat)
    requires i < |parts| && parts[i].id in ids
    ensures |PartsWithIds(parts[..i], ids)| < |PartsWithIds(parts, ids)|
    ensures PartsWithIds(parts, ids)[|PartsWithIds(parts[..i], ids)|] == parts[i]
    ensures |PartsWithIds(parts[..i + 1], ids)| == |PartsWithIds(parts[..i], ids)| + 1
  {
    assert parts[..i + 1] == parts[..i] + [parts[i]];
    assert parts == parts[..i + 1] + parts[i + 1..];
    PartsWithIdsAppend(parts[..i], [parts[i]], ids);
    PartsWithIdsAppend(parts[..i + 1], parts[i + 1..], ids);
    assert PartsWithIds([parts[i]], ids) == [parts[i]] + PartsWithIds([parts[i]][1..], ids);
  }

  /** A part whose id is not selected adds nothing to the selection. */
  lemma PartsWithIdsSkip<C>(parts: seq<Part<C>>, ids: seq<string>, i: nat)
    requires i < |parts| && parts[i].id !in ids
    ensures PartsWithIds(parts[..i + 1], ids) == PartsWithIds(parts[..i], ids)
  {
    assert parts[..i + 1] == parts[..i] + [parts[i]];
    PartsWithIdsAppend(parts[..i], [parts[i]], ids);
    assert PartsWithIds([parts[i]], ids) == [] + PartsWithIds([parts[i]][1..], ids);
  }

  /** Two different parts with a selected id give at least two selected parts. */
  lemma {:induction false} PartsWithIdsTwo<C>(parts: seq<Part<C>>, ids: seq<string>, i: nat, j: nat)
    requires i < j < |parts| && parts[i].id in ids && parts[j].id in ids
    ensures |PartsWithIds(parts, ids)| >= 2
  {
    if i == 0 {
      assert parts[j] == parts[1..][j - 1];
      assert |PartsWithIds(parts[1..], ids)| >= 1;
    } else {
      PartsWithIdsTwo(parts[1..], ids, i - 1, j - 1);
    }
  }

  /** `get_piano_part`. */
  function GetPianoPart<C>(f: MxlFile<C>): (r: Result<Part<C>, Error>)
    ensures ResolvePianoPartId(f).Err? ==> r == Err(ResolvePianoPartId(f).error)
    ensures r.Ok? ==> ResolvePianoPartId(f) == Ok(r.value.id) && r.value in f.tree.parts
  {
    match ResolvePianoPartId(f)
    case Err(e) => Err(e)
    case Ok(id) =>
      var parts := PartsWithIds(f.tree.parts, [id]);
      if |parts| != 1 then Err(PianoPartCount(|parts|)) else Ok(parts[0])
  }

  /** The piano part is returned only when it is the one `<part>` carrying the
      resolved id; zero or several such parts are an error. */
  lemma GetPianoPartUnique<C>(f: MxlFile<C>)
    requires ResolvePianoPartId(f).Ok?
    ensures GetPianoPart(f).Err? <==> |PartsWithIds(f.tree.parts, [ResolvePianoPartId(f).value])| != 1
    ensures GetPianoPart(f).Err? ==> GetPianoPart(f).error == PianoPartCount(|PartsWithIds(f.tree.parts, [ResolvePianoPartId(f).value])|)
    ensures GetPianoPart(f).Ok? ==> forall i :: 0 <= i < |f.tree.parts| ==>
      (f.tree.parts[i].id == GetPianoPart(f).value.id <==> f.tree.parts[i] == GetPianoPart(f).value)
  {
    var parts := f.tree.parts;
    if GetPianoPart(f).Ok? {
      var p := GetPianoPart(f).value;
      var id := p.id;
      forall i | 0 <= i < |parts| ensures parts[i].id == id <==> parts[i] == p {
        if parts[i].id == id && parts[i] != p {
          var k :| 0 <= k < |parts| && parts[k] == p;
          if i < k {
            PartsWithIdsTwo(parts, [id], i, k);
          } else {
            PartsWithIdsTwo(parts, [id], k, i);
          }
        }
      }
    }
  }

  // ---- The string quartet ----

  /** The ids of all string entries, in part-list order. */
  function StringPartIds(entries: seq<ScorePart>): (ids: seq<string>)
    ensures |ids| <= |entries|
    ensures ids == [] <==> forall i :: 0 <= i < |entries| ==> !IsStringEntry(entries[i])
  {
    if entries == [] then []
    else
      var rest := StringPartIds(entries[1..]);
      assert forall i :: 1 <= i < |entries| ==> entries[i] == entries[1..][i - 1];
      (if IsStringEntry(entries[0]) then [entries[0].id] else []) + rest
  }

  /** The ids are collected in part-list order: the collection distributes over
      concatenation (and one entry contributes its id exactly when it is a string entry). */
  lemma {:induction false} StringPartIdsAppend(a: seq<ScorePart>, b: seq<ScorePart>)
    ensures StringPartIds(a + b) == StringPartIds(a) + StringPartIds(b)
  {
    if a == [] {
      assert a + b == b;
    } else {
      assert (a + b)[1..] == a[1..] + b;
      assert (a + b)[0] == a[0];
      StringPartIdsAppend(a[1..], b);
      var head := if IsStringEntry(a[0]) then [a[0].id] else [];
      assert StringPartIds(a) == head + StringPartIds(a[1..]);
      assert StringPartIds(a + b) == head + StringPartIds(a[1..] + b);
    }
  }

  /** An id is collected exactly when some string entry carries it. */
  lemma {:induction false} StringPartIdsMembers(entries: seq<ScorePart>, id: string)
    ensures id in StringPartIds(entries) <==>
      exists i :: 0 <= i < |entries| && IsStringEntry(entries[i]) && entries[i].id == id
  {
    if entries != [] {
      var tail := entries[1..];
      StringPartIdsMembers(tail, id);
      assert forall i :: 1 <= i < |entries| ==> entries[i] == tail[i - 1];
      if exists i :: 0 <= i < |entries| && IsStringEntry(entries[i]) && entries[i].id == id {
        var i :| 0 <= i < |entries| && IsStringEntry(entries[i]) && entries[i].id == id;
        if i > 0 {
          assert IsStringEntry(tail[i - 1]) && tail[i - 1].id == id;
        }
      }
      if id in StringPartIds(tail) {
        var i :| 0 <= i < |tail| && IsStringEntry(tail[i]) && tail[i].id == id;
        assert IsStringEntry(entries[i + 1]) && entries[i + 1].id == id;
      }
    }
  }

  /** What `resolve_string_part_ids` returns: all string ids, cut to the first four. */
  function ResolvedStringPartIds<C>(f: MxlFile<C>): (r: Result<seq<string>, Error>)
    ensures r.Err? <==> forall i :: 0 <= i < |f.tree.partList| ==> !IsStringEntry(f.tree.partList[i])
    ensures r.Err? ==> r.error == NoStringParts
    ensures r.Ok? ==> 1 <= |r.value| <= 4
    ensures r.Ok? ==> |r.value| <= |StringPartIds(f.tree.partList)|
    ensures r.Ok? ==> r.value == StringPartIds(f.tree.partList)[..|r.value|]
    ensures r.Ok? && |r.value| < 4 ==> r.value == StringPartIds(f.tree.partList)
  {
    var ids := StringPartIds(f.tree.partList);
    if |ids| == 0 then Err(NoStringParts)
    else if |ids| > 4 then Ok(ids[..4])
    else Ok(ids)
  }

  /** The loop of `resolve_string_part_ids`; `warned` is the warning it prints when
      more than four string parts are found. */
  method ResolveStringPartIds<C>(f: MxlFile<C>) returns (r: Result<seq<string>, Error>, warned: bool)
    ensures r == ResolvedStringPartIds(f)
    ensures warned <==> |StringPartIds(f.tree.partList)| > 4
  {
    var entries := f.tree.partList;
    var stringPartIds: seq<string> := [];
    for i := 0 to |entries|
      invariant stringPartIds == StringPartIds(entries[..i])
    {
      var e := entries[i];
      assert entries[..i + 1] == entries[..i] + [e];
      StringPartIdsAppend(entries[..i], [e]);
      if IsStringEntry(e) {
        stringPartIds := stringPartIds + [e.id];
      }
    }
    assert entries[..|entries|] == entries;
    warned := false;
    if |stringPartIds| == 0 {
      return Err(NoStringParts), warned;
    }
    if |stringPartIds| > 4 {
      warned := true;
      stringPartIds := stringPartIds[..4];
    }
    r := Ok(stringPartIds);
  }

  /** `get_string_quartet_parts`: the `<part>` children whose id was resolved, in
      document order, and exactly four of them. */
  function GetStringQuartetParts<C>(f: MxlFile<C>): (r: Result<seq<Part<C>>, Error>)
    ensures ResolvedStringPartIds(f).Err? ==> r == Err(ResolvedStringPartIds(f).error)
    ensures r.Ok? ==> ResolvedStringPartIds(f).Ok? && |r.value| == 4
    ensures r.Ok? ==> forall j :: 0 <= j < 4 ==>
      r.value[j] in f.tree.parts && r.value[j].id in ResolvedStringPartIds(f).value
    ensures r.Ok? ==> forall i :: 0 <= i < |f.tree.parts| && f.tree.parts[i].id in ResolvedStringPartIds(f).value ==>
      f.tree.parts[i] in r.value
    ensures ResolvedStringPartIds(f).Ok? ==>
      (r.Err? <==> |PartsWithIds(f.tree.parts, ResolvedStringPartIds(f).value)| != 4)
    ensures ResolvedStringPartIds(f).Ok? && r.Err? ==>
      r.error == QuartetPartCount(|PartsWithIds(f.tree.parts, ResolvedStringPartIds(f).value)|)
    ensures r.Ok? ==> r.value == PartsWithIds(f.tree.parts, ResolvedStringPartIds(f).value)
  {
    match ResolvedStringPartIds(f)
    case Err(e) => Err(e)
    case Ok(ids) =>
      var parts := PartsWithIds(f.tree.parts, ids);
      if |parts| != 4 then Err(QuartetPartCount(|parts|)) else Ok(parts)
  }
}
