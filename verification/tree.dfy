/** The part of `xml.etree.ElementTree` the directive handlers build: an
    element with a tag, attributes in insertion order, text and children. */
module Tree {

  datatype Element = Element(tag: string, attrs: seq<(string, string)>, text: string, children: seq<Element>)

  /** A `div` whose only attribute is `class`. */
  function ClassDiv(cls: string, text: string, children: seq<Element>): Element {
    Element("div", [("class", cls)], text, children)
  }

  /** A bare `div`, as `ET.Element('div')` builds it. */
  function PlainDiv(text: string): Element {
    Element("div", [], text, [])
  }

  /** The value of the first attribute named `key`, if any. */
  function Attr(e: Element, key: string): string {
    AttrIn(e.attrs, key)
  }

  function AttrIn(attrs: seq<(string, string)>, key: string): string {
    if |attrs| == 0 then ""
    else if attrs[0].0 == key then attrs[0].1
    else AttrIn(attrs[1..], key)
  }

  predicate HasClass(e: Element, cls: string) {
    Attr(e, "class") == cls
  }

  /** The second of two differently named attributes is found. */
  lemma AttrSecond(k1: string, v1: string, k2: string, v2: string)
    requires k1 != k2
    ensures AttrIn([(k1, v1), (k2, v2)], k2) == v2
  {
    assert [(k1, v1), (k2, v2)][1..] == [(k2, v2)];
  }
}
