/**
 * The already-parsed descriptor tree and the child-lookup helpers the POM reader
 * consumes: get a child element by tag, the body of such a child, and the list of
 * children (all of them, or those with a given tag).
 */
module Xml {
  import opened Wrappers

  /** An element: its tag name, its text body (absent for an empty element) and its child elements. */
  datatype Element = Element(tag: string, body: Option<string>, children: seq<Element>)

  /** The first child of `e` whose tag is `tag`. */
  function ChildElement(e: Element, tag: string): (r: Option<Element>)
    ensures r.Some? ==> r.value in e.children && r.value.tag == tag
    ensures r.None? ==> forall k :: 0 <= k < |e.children| ==> e.children[k].tag != tag
  {
    FirstWithTag(e.children, tag)
  }

  function FirstWithTag(xs: seq<Element>, tag: string): (r: Option<Element>)
    ensures r.Some? ==> r.value in xs && r.value.tag == tag
    ensures r.None? ==> forall k :: 0 <= k < |xs| ==> xs[k].tag != tag
  {
    if xs == [] then None
    else if xs[0].tag == tag then Some(xs[0])
    else FirstWithTag(xs[1..], tag)
  }

  /** The body of the first child of `e` tagged `tag`; absent when there is no such child. */
  function ChildElementBody(e: Element, tag: string): Option<string> {
    match ChildElement(e, tag)
    case None => None
    case Some(c) => c.body
  }

  /** The children of `e` tagged `tag`, in document order. */
  function ChildElementList(e: Element, tag: string): (r: seq<Element>)
    ensures forall k :: 0 <= k < |r| ==> r[k].tag == tag
    ensures |r| <= |e.children|
  {
    WithTag(e.children, tag)
  }

  function WithTag(xs: seq<Element>, tag: string): (r: seq<Element>)
    ensures forall k :: 0 <= k < |r| ==> r[k].tag == tag
    ensures |r| <= |xs|
  {
    if xs == [] then []
    else if xs[0].tag == tag then [xs[0]] + WithTag(xs[1..], tag)
    else WithTag(xs[1..], tag)
  }

  /** The children tagged `tag` of the first child of `e` tagged `container`; empty without such a container. */
  function NestedList(e: Element, container: string, tag: string): seq<Element> {
    match ChildElement(e, container)
    case None => []
    case Some(c) => ChildElementList(c, tag)
  }

  /** True when the text is null or has no characters. */
  predicate IsEmpty(s: Option<string>) {
    s.None? || s.value == []
  }
}
