/** `part_to_score` and `string_quartet_parts_to_score`: embed one `<part>` element,
    or the four parts of a string quartet, in a minimal `<score-partwise>` document.
    Both build the new elements by successive appends and overwrite the `id`
    attribute of the caller's part elements in place. */
module PartToScore {
  import opened Results
  import opened Elements

  const DefaultPartIds: seq<string> := ["P1", "P2", "P3", "P4"]
  const DefaultPartNames: seq<string> := ["Violin 1", "Violin 2", "Viola", "Violoncello"]

  datatype AssembleError = WrongPartCount(count: nat)

  function Min(a: nat, b: nat): (r: nat)
  {
    if a <= b then a else b
  }

  /** `<score-part id="id"><part-name>name</part-name></score-part>`. */
  ghost predicate IsScorePart(e: Element, id: string, name: string)
    reads e, e.children
  {
    e.tag == "score-part" && e.attrib == map["id" := id] && e.text == None
    && |e.children| == 1 && IsLeaf(e.children[0], "part-name", name)
  }

  /** `<part-group type="start" number="1"><group-symbol>bracket</group-symbol></part-group>`. */
  ghost predicate IsGroupStart(e: Element)
    reads e, e.children
  {
    e.tag == "part-group" && e.attrib == map["type" := "start", "number" := "1"] && e.text == None
    && |e.children| == 1 && IsLeaf(e.children[0], "group-symbol", "bracket")
  }

  /** `<part-group type="end" number="1"/>`. */
  ghost predicate IsGroupEnd(e: Element)
    reads e
  {
    e.tag == "part-group" && e.attrib == map["type" := "end", "number" := "1"] && e.text == None
    && e.children == []
  }

  /** The children of the children of `pl`. */
  ghost function Grandchildren(pl: Element): (r: set<Element>)
    reads pl, pl.children
  {
    set k, j | 0 <= k < |pl.children| && 0 <= j < |pl.children[k].children| :: pl.children[k].children[j]
  }

  /** A fresh `<score-part>` entry. */
  method NewScorePart(id: string, name: string) returns (e: Element)
    ensures fresh(e) && IsScorePart(e, id, name) && fresh(e.children[0])
  {
    e := new Element("score-part");
    e.attrib := e.attrib["id" := id];
    var partName := new Element("part-name");
    partName.text := Some(name);
    e.Append(partName);
  }

  /** `part_to_score`: the root holds a part-list with one entry for `partId` and
      `partName`, then the given part itself, whose `id` attribute is overwritten
      and which is otherwise left as it was. */
  method PartToScore(part: Element, partId: string := "P2", partName: string := "Piano",
                     musicxmlVersion: string := "3.1")
    returns (root: Element)
    modifies part
    ensures fresh(root) && root.tag == "score-partwise" && root.text == None
    ensures root.attrib == map["version" := musicxmlVersion]
    ensures |root.children| == 2 && root.children[1] == part
    ensures fresh(root.children[0]) && root.children[0].tag == "part-list"
    ensures root.children[0].attrib == map[] && root.children[0].text == None
    ensures |root.children[0].children| == 1 && fresh(root.children[0].children[0])
    ensures IsScorePart(root.children[0].children[0], partId, partName)
    ensures fresh(root.children[0].children[0].children[0])
    ensures part.attrib == old(part.attrib)["id" := partId]
    ensures part.text == old(part.text) && part.children == old(part.children)
  {
    root := new Element("score-partwise");
    root.attrib := root.attrib["version" := musicxmlVersion];
    var partList := new Element("part-list");
    var scorePart := NewScorePart(partId, partName);
    partList.Append(scorePart);
    root.Append(partList);
    part.attrib := part.attrib["id" := partId];
    root.Append(part);
  }

  /** The part-list of a quartet score: a bracket group start, one entry per
      (id, name) pair in order, and the group end. */
  ghost predicate IsQuartetPartList(pl: Element, partIds: seq<string>, partNames: seq<string>)
    reads pl, pl.children, Grandchildren(pl)
  {
    var m := Min(|partIds|, |partNames|);
    pl.tag == "part-list" && pl.attrib == map[] && pl.text == None
    && |pl.children| == m + 2
    && IsGroupStart(pl.children[0])
    && (forall k :: 0 <= k < m ==> IsScorePart(pl.children[k + 1], partIds[k], partNames[k]))
    && IsGroupEnd(pl.children[m + 1])
  }

  /** The part-list children built so far by the loop over `zip(part_ids, part_names)`. */
  ghost predicate PartListUpTo(pl: Element, partIds: seq<string>, partNames: seq<string>, k: nat)
    reads pl, pl.children, Grandchildren(pl)
  {
    k <= |partIds| && k <= |partNames|
    && |pl.children| == k + 1 && IsGroupStart(pl.children[0])
    && forall j :: 0 <= j < k ==> IsScorePart(pl.children[j + 1], partIds[j], partNames[j])
  }

  /** A `<part-list>` element without attributes or text. */
  ghost predicate IsPartListElement(pl: Element)
    reads pl
  {
    pl.tag == "part-list" && pl.attrib == map[] && pl.text == None
  }

  /** The part-list and every element below it. */
  ghost function Footprint(pl: Element): (r: set<Element>)
    reads pl, pl.children
  {
    {pl} + (set e | e in pl.children) + Grandchildren(pl)
  }

  /** One step of the loop over `zip(part_ids, part_names)`. */
  method AppendScorePart(pl: Element, partIds: seq<string>, partNames: seq<string>, k: nat)
    requires k < |partIds| && k < |partNames|
    requires IsPartListElement(pl) && PartListUpTo(pl, partIds, partNames, k)
    modifies pl
    ensures IsPartListElement(pl) && PartListUpTo(pl, partIds, partNames, k + 1)
    ensures pl.children == old(pl.children) + [pl.children[k + 1]]
    ensures IsScorePart(pl.children[k + 1], partIds[k], partNames[k])
    ensures fresh(pl.children[k + 1]) && fresh(pl.children[k + 1].children[0])
    ensures Footprint(pl) == old(Footprint(pl)) + {pl.children[k + 1], pl.children[k + 1].children[0]}
  {
    var scorePart := NewScorePart(partIds[k], partNames[k]);
    ghost var kids := pl.children;
    ghost var grand := Grandchildren(pl);
    forall i | 0 <= i < |kids|
      ensures kids[i].tag != pl.tag
    {
      if i > 0 {
        assert IsScorePart(kids[(i - 1) + 1], partIds[i - 1], partNames[i - 1]);
      }
    }
    pl.Append(scorePart);
    assert pl.children[k + 1] == scorePart;
    assert forall i :: 0 <= i < |kids| ==> pl.children[i] == kids[i] && kids[i].children == old(kids[i].children);
    assert Grandchildren(pl) == grand + {scorePart.children[0]};
  }

  /** A fresh bracket group start. */
  method NewGroupStart() returns (e: Element)
    ensures fresh(e) && IsGroupStart(e) && fresh(e.children[0])
  {
    e := new Element("part-group");
    e.attrib := e.attrib["type" := "start"];
    e.attrib := e.attrib["number" := "1"];
    var groupSymbol := new Element("group-symbol");
    groupSymbol.text := Some("bracket");
    e.Append(groupSymbol);
  }

  /** A fresh group end. */
  method NewGroupEnd() returns (e: Element)
    ensures fresh(e) && IsGroupEnd(e)
  {
    e := new Element("part-group");
    e.attrib := e.attrib["type" := "end"];
    e.attrib := e.attrib["number" := "1"];
  }

  /** The last step: closing the bracket group. */
  method AppendGroupEnd(pl: Element, partIds: seq<string>, partNames: seq<string>)
    requires IsPartListElement(pl)
    requires PartListUpTo(pl, partIds, partNames, Min(|partIds|, |partNames|))
    modifies pl
    ensures IsQuartetPartList(pl, partIds, partNames)
    ensures pl.children == old(pl.children) + [pl.children[|pl.children| - 1]]
    ensures fresh(pl.children[|pl.children| - 1])
    ensures Footprint(pl) == old(Footprint(pl)) + {pl.children[|pl.children| - 1]}
  {
    var groupEnd := NewGroupEnd();
    ghost var kids := pl.children;
    ghost var grand := Grandchildren(pl);
    forall i | 0 <= i < |kids|
      ensures kids[i].tag != pl.tag
    {
      if i > 0 {
        assert IsScorePart(kids[(i - 1) + 1], partIds[i - 1], partNames[i - 1]);
      }
    }
    pl.Append(groupEnd);
    assert forall i :: 0 <= i < |kids| ==> pl.children[i] == kids[i] && kids[i].children == old(kids[i].children);
    assert Grandchildren(pl) == grand;
  }

  /** Builds the part-list of a quartet score. */
  method NewQuartetPartList(partIds: seq<string>, partNames: seq<string>) returns (pl: Element)
    ensures IsQuartetPartList(pl, partIds, partNames) && fresh(Footprint(pl))
  {
    pl := new Element("part-list");
    var groupStart := NewGroupStart();
    pl.Append(groupStart);
    var m := Min(|partIds|, |partNames|);
    for k := 0 to m
      invariant IsPartListElement(pl) && PartListUpTo(pl, partIds, partNames, k)
      invariant fresh(Footprint(pl))
    {
      AppendScorePart(pl, partIds, partNames, k);
    }
    AppendGroupEnd(pl, partIds, partNames);
  }

  /** The id that the loop over `zip(part_ids, parts)` has written into `x` after
      its first `k` steps: the one from the last step whose part is `x`, if any. */
  function LastWrite(parts: seq<Element>, partIds: seq<string>, x: Element, k: nat): (r: Option<string>)
    requires k <= |parts| && k <= |partIds|
    ensures r.None? <==> forall j :: 0 <= j < k ==> parts[j] != x
  {
    if k == 0 then None
    else if parts[k - 1] == x then Some(partIds[k - 1])
    else LastWrite(parts, partIds, x, k - 1)
  }

  /** An attribute map after the `id` writes `id` stands for. */
  function WithId(attrib: map<string, string>, id: Option<string>): (r: map<string, string>)
  {
    match id
    case None => attrib
    case Some(v) => attrib["id" := v]
  }

  /** When the parts are distinct elements, each of the first `k` receives its own
      id and the others keep theirs. */
  lemma {:induction false} LastWriteOfDistinct(parts: seq<Element>, partIds: seq<string>, k: nat, i: nat)
    requires k <= |parts| && k <= |partIds| && i < |parts|
    requires forall a, b :: 0 <= a < b < |parts| ==> parts[a] != parts[b]
    ensures LastWrite(parts, partIds, parts[i], k) == if i < k then Some(partIds[i]) else None
  {
    if k > 0 && parts[k - 1] != parts[i] {
      LastWriteOfDistinct(parts, partIds, k - 1, i);
    }
  }

  /** The loop over `zip(part_ids, parts)`: appends each part to `root` after
      overwriting its `id` attribute. */
  method AttachParts(root: Element, parts: seq<Element>, partIds: seq<string>)
    requires root !in parts
    modifies root, set p | p in parts
    ensures root.attrib == old(root.attrib) && root.text == old(root.text)
    ensures root.children == old(root.children) + parts[..Min(|partIds|, |parts|)]
    ensures forall i :: 0 <= i < |parts| ==>
              parts[i].attrib == WithId(old(parts[i].attrib), LastWrite(parts, partIds, parts[i], Min(|partIds|, |parts|)))
    ensures forall i :: 0 <= i < |parts| ==>
              parts[i].text == old(parts[i].text) && parts[i].children == old(parts[i].children)
  {
    var n := Min(|partIds|, |parts|);
    for k := 0 to n
      invariant root.attrib == old(root.attrib) && root.text == old(root.text)
      invariant root.children == old(root.children) + parts[..k]
      invariant forall i :: 0 <= i < |parts| ==>
                  parts[i].attrib == WithId(old(parts[i].attrib), LastWrite(parts, partIds, parts[i], k))
      invariant forall i :: 0 <= i < |parts| ==>
                  parts[i].text == old(parts[i].text) && parts[i].children == old(parts[i].children)
    {
      parts[k].attrib := parts[k].attrib["id" := partIds[k]];
      root.Append(parts[k]);
      assert parts[..k + 1] == parts[..k] + [parts[k]];
    }
  }

  /** The score root holding only the quartet part-list. */
  method NewQuartetRoot(partIds: seq<string>, partNames: seq<string>, musicxmlVersion: string)
    returns (root: Element)
    ensures fresh(root) && root.tag == "score-partwise" && root.text == None
    ensures root.attrib == map["version" := musicxmlVersion]
    ensures |root.children| == 1 && IsQuartetPartList(root.children[0], partIds, partNames)
    ensures fresh(Footprint(root.children[0])) && root !in Footprint(root.children[0])
  {
    root := new Element("score-partwise");
    root.attrib := root.attrib["version" := musicxmlVersion];
    var partList := NewQuartetPartList(partIds, partNames);
    ghost var footprint := Footprint(partList);
    assert root !in footprint;
    root.Append(partList);
    assert Footprint(partList) == footprint;
  }

  /** `string_quartet_parts_to_score`. Fails, changing nothing, unless there are
      exactly four parts. Otherwise the root holds the bracketed part-list for
      `zip(part_ids, part_names)` and then the parts paired with an id by
      `zip(part_ids, parts)`, each of whose `id` attribute is overwritten. */
  method StringQuartetPartsToScore(parts: seq<Element>, partIds: seq<string> := DefaultPartIds,
                                   partNames: seq<string> := DefaultPartNames,
                                   musicxmlVersion: string := "3.1")
    returns (r: Result<Element, AssembleError>)
    modifies set p | p in parts
    ensures r.Err? <==> |parts| != 4
    ensures r.Err? ==> r.error == WrongPartCount(|parts|)
    ensures r.Err? ==> forall i :: 0 <= i < |parts| ==> unchanged(parts[i])
    ensures r.Ok? ==> fresh(r.value) && r.value.tag == "score-partwise" && r.value.text == None
    ensures r.Ok? ==> r.value.attrib == map["version" := musicxmlVersion]
    ensures r.Ok? ==> |r.value.children| == 1 + Min(|partIds|, 4)
    ensures r.Ok? ==> r.value.children[1..] == parts[..Min(|partIds|, 4)]
    ensures r.Ok? ==> IsQuartetPartList(r.value.children[0], partIds, partNames)
    ensures r.Ok? ==> fresh(Footprint(r.value.children[0]))
    ensures r.Ok? ==> forall i :: 0 <= i < |parts| ==>
              parts[i].attrib == WithId(old(parts[i].attrib), LastWrite(parts, partIds, parts[i], Min(|partIds|, 4)))
    ensures r.Ok? ==> forall i :: 0 <= i < |parts| ==>
              parts[i].text == old(parts[i].text) && parts[i].children == old(parts[i].children)
  {
    if |parts| != 4 {
      return Err(WrongPartCount(|parts|));
    }
    var root := NewQuartetRoot(partIds, partNames, musicxmlVersion);
    ghost var footprint := Footprint(root.children[0]);
    assert forall i :: 0 <= i < |parts| ==> parts[i] !in footprint;
    label attach:
    AttachParts(root, parts, partIds);
    assert unchanged@attach(footprint);
    return Ok(root);
  }
}
