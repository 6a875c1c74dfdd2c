/** The part of `xml.etree.ElementTree` the score assembler uses: an element with a
    tag, an attribute map, an optional text and an ordered list of children, all of
    which the assembler creates and changes in place. */
module Elements {
  import opened Results

  class Element {
    const tag: string
    var attrib: map<string, string>
    var text: Option<string>
    var children: seq<Element>

    /** `ET.Element(tag)`. */
    constructor (tag: string)
      ensures this.tag == tag && attrib == map[] && text == None && children == []
    {
      this.tag := tag;
      attrib := map[];
      text := None;
      children := [];
    }

    /** `element.append(child)`. */
    method Append(child: Element)
      modifies this
      ensures children == old(children) + [child]
      ensures attrib == old(attrib) && text == old(text)
    {
      children := children + [child];
    }
  }

  /** An element without attributes or children whose text is `text`. */
  ghost predicate IsLeaf(e: Element, tag: string, text: string)
    reads e
  {
    e.tag == tag && e.attrib == map[] && e.text == Some(text) && e.children == []
  }
}
