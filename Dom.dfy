/**
 * The part of HtmlUnit's DOM that the lookup helpers rely on: element classes,
 * elements as a finite tree, pages, document-order listings of a tree and the
 * selection of the elements that meet a criterion.
 */
module Dom {

  datatype Option<T> = None | Some(value: T)

  /**
   * Runtime classes of elements. `HtmlElement` and `HtmlInput` are the
   * abstract supertypes a caller may ask for; the others are concrete classes.
   */
  datatype Kind =
    | HtmlElement
    | HtmlInput
    | HtmlTextInput
    | HtmlPasswordInput
    | HtmlImageInput
    | HtmlButtonInput
    | HtmlRadioButtonInput
    | HtmlImage
    | HtmlForm
    | HtmlAnchor
    | HtmlDivision
    | HtmlInlineFrame
    | HtmlUnknownElement

  /** Direct superclass; `HtmlElement` is the top of the hierarchy and its own superclass here. */
  function Super(k: Kind): (s: Kind) {
    match k
    case HtmlTextInput | HtmlPasswordInput | HtmlImageInput | HtmlButtonInput | HtmlRadioButtonInput => HtmlInput
    case _ => HtmlElement
  }

  /** Java's `type.isAssignableFrom(k)`: `expected` is `k` or one of its superclasses. */
  predicate IsAssignableFrom(expected: Kind, k: Kind) {
    expected == k || expected == Super(k) || expected == Super(Super(k))
  }

  lemma AssignableIsPartialOrder(a: Kind, b: Kind, c: Kind)
    ensures IsAssignableFrom(a, a)
    ensures IsAssignableFrom(HtmlElement, a)
    ensures IsAssignableFrom(a, b) && IsAssignableFrom(b, c) ==> IsAssignableFrom(a, c)
    ensures IsAssignableFrom(a, b) && IsAssignableFrom(b, a) ==> a == b
  {
  }

  /**
   * An element: its runtime class, tag name, attributes, text content (as the
   * library computes it) and child elements in document order.
   */
  datatype Element = Element(
    kind: Kind,
    tag: string,
    attributes: map<string, string>,
    text: string,
    children: seq<Element>)

  /** `DomElement.getAttribute`: the empty string when the attribute is not defined. */
  function Attribute(e: Element, name: string): (value: string) {
    if name in e.attributes then e.attributes[name] else ""
  }

  /** Java's `String.contains`: `needle` occurs as a contiguous piece of `hay`. */
  predicate Contains(hay: string, needle: string)
    decreases |hay|
  {
    (|needle| <= |hay| && hay[..|needle|] == needle) || (hay != [] && Contains(hay[1..], needle))
  }

  /** `needle` occurs in `hay` starting at index `i`. */
  predicate OccursAt(hay: string, needle: string, i: int) {
    0 <= i <= |hay| - |needle| && hay[i..i + |needle|] == needle
  }

  /** The recursive `Contains` agrees with the positional reading of `String.contains`. */
  lemma {:induction false} ContainsAt(hay: string, needle: string)
    ensures Contains(hay, needle) <==> exists i :: OccursAt(hay, needle, i)
    decreases |hay|
  {
    if |needle| <= |hay| && hay[..|needle|] == needle {
      assert hay[0..|needle|] == hay[..|needle|];
      assert OccursAt(hay, needle, 0);
    }
    if hay != [] {
      ContainsAt(hay[1..], needle);
      if Contains(hay[1..], needle) {
        var i :| OccursAt(hay[1..], needle, i);
        assert hay[i + 1..i + 1 + |needle|] == hay[1..][i..i + |needle|];
        assert OccursAt(hay, needle, i + 1);
      }
      if exists i :: OccursAt(hay, needle, i) {
        var i :| OccursAt(hay, needle, i);
        if i > 0 {
          assert hay[1..][i - 1..i - 1 + |needle|] == hay[i..i + |needle|];
          assert OccursAt(hay[1..], needle, i - 1);
        }
      }
    } else {
      if exists i :: OccursAt(hay, needle, i) {
        var i :| OccursAt(hay, needle, i);
        assert hay[..|needle|] == hay[i..i + |needle|];
      }
    }
  }

  /** Pre-order (document-order) listing of every element of the trees in `forest`, roots included. */
  function Flatten(forest: seq<Element>): (listing: seq<Element>)
    decreases forest
  {
    if forest == [] then []
    else [forest[0]] + Flatten(forest[0].children) + Flatten(forest[1..])
  }

  lemma {:induction false} FlattenAppend(a: seq<Element>, b: seq<Element>)
    ensures Flatten(a + b) == Flatten(a) + Flatten(b)
    decreases a
  {
    if a != [] {
      assert (a + b)[0] == a[0];
      assert (a + b)[1..] == a[1..] + b;
      FlattenAppend(a[1..], b);
    } else {
      assert a + b == b;
    }
  }

  lemma FlattenSingle(e: Element)
    ensures Flatten([e]) == [e] + Flatten(e.children)
  {
    assert [e][1..] == [];
  }

  /** Every element listed for a forest is a tree no larger than the forest. */
  lemma {:induction false} FlattenSizeBound(forest: seq<Element>, x: Element)
    requires x in Flatten(forest)
    ensures |Flatten([x])| <= |Flatten(forest)|
    decreases forest
  {
    var head := forest[0];
    FlattenSingle(head);
    if x == head {
    } else if x in Flatten(head.children) {
      FlattenSizeBound(head.children, x);
    } else {
      FlattenSizeBound(forest[1..], x);
    }
  }

  /** An element never occurs among its own descendants. */
  lemma NotOwnDescendant(e: Element)
    ensures e !in Flatten(e.children)
  {
    FlattenSingle(e);
    if e in Flatten(e.children) {
      FlattenSizeBound(e.children, e);
      assert false;
    }
  }

  /** The proper descendants of `e`, in document order. */
  function Descendants(e: Element): (listing: seq<Element>) {
    Flatten(e.children)
  }

  /** The tests the finders apply to a single element. */
  datatype Criterion =
    | TagIs(tag: string)
    | OfType(expected: Kind)
    | AttributeEquals(attribute: string, value: string)
    | AttributeContains(attribute: string, value: string)
    | TextEquals(text: string)
    | NameAndValue(name: string, value: string)

  predicate Matches(e: Element, c: Criterion) {
    match c
    case TagIs(t) => e.tag == t
    case OfType(t) => IsAssignableFrom(t, e.kind)
    case AttributeEquals(a, v) => Attribute(e, a) == v
    case AttributeContains(a, v) => Contains(Attribute(e, a), v)
    case TextEquals(t) => e.text == t
    case NameAndValue(n, v) => Attribute(e, "name") == n && Attribute(e, "value") == v
  }

  /** The elements of `s` that meet `c`, in their order in `s`. */
  function Select(s: seq<Element>, c: Criterion): (selected: seq<Element>) {
    if s == [] then []
    else (if Matches(s[0], c) then [s[0]] else []) + Select(s[1..], c)
  }

  lemma {:induction false} SelectAppend(a: seq<Element>, b: seq<Element>, c: Criterion)
    ensures Select(a + b, c) == Select(a, c) + Select(b, c)
  {
    if a != [] {
      assert (a + b)[0] == a[0];
      assert (a + b)[1..] == a[1..] + b;
      SelectAppend(a[1..], b, c);
    } else {
      assert a + b == b;
    }
  }

  lemma SelectSnoc(s: seq<Element>, x: Element, c: Criterion)
    ensures Select(s + [x], c) == Select(s, c) + (if Matches(x, c) then [x] else [])
  {
    SelectAppend(s, [x], c);
    assert [x][1..] == [];
  }

  /** Selection keeps exactly the matching elements, each as often as it occurs. */
  lemma {:induction false} SelectCount(s: seq<Element>, c: Criterion, x: Element)
    ensures multiset(Select(s, c))[x] == if Matches(x, c) then multiset(s)[x] else 0
  {
    if s != [] {
      SelectCount(s[1..], c, x);
      assert s == [s[0]] + s[1..];
    }
  }

  lemma SelectMember(s: seq<Element>, c: Criterion, x: Element)
    ensures x in Select(s, c) <==> x in s && Matches(x, c)
  {
    SelectCount(s, c, x);
    assert x in Select(s, c) <==> multiset(Select(s, c))[x] > 0;
    assert x in s <==> multiset(s)[x] > 0;
  }

  /** Two orderings of the same elements select the same elements, as often. */
  lemma SelectPermutation(a: seq<Element>, b: seq<Element>, c: Criterion)
    requires multiset(a) == multiset(b)
    ensures multiset(Select(a, c)) == multiset(Select(b, c))
    ensures |Select(a, c)| == |Select(b, c)|
  {
    forall x ensures multiset(Select(a, c))[x] == multiset(Select(b, c))[x] {
      SelectCount(a, c, x);
      SelectCount(b, c, x);
    }
    assert multiset(Select(a, c)) == multiset(Select(b, c));
    assert |multiset(Select(a, c))| == |multiset(Select(b, c))|;
  }

  /** A lone match is the same whatever the order the elements are listed in. */
  lemma LoneMatchIndependentOfOrder(a: seq<Element>, b: seq<Element>, c: Criterion)
    requires multiset(a) == multiset(b)
    requires |Select(a, c)| == 1
    ensures Select(b, c) == Select(a, c)
  {
    SelectPermutation(a, b, c);
    var sa, sb := Select(a, c), Select(b, c);
    assert sa == [sa[0]] && sb == [sb[0]];
    assert multiset(sb) == multiset{sb[0]} && multiset(sa) == multiset{sa[0]};
    assert sb[0] in multiset{sa[0]};
  }

  /**
   * A fetched page: its URL, its document element, and the library's own
   * id and name indexes (`getElementById`, `getElementByName`), which this
   * model takes as given.
   */
  datatype Page = Page(
    url: string,
    root: Element,
    byId: map<string, Element>,
    byName: map<string, Element>)

  /** Every element of the page, in document order. */
  function Nodes(page: Page): (listing: seq<Element>) {
    Flatten([page.root])
  }

  /** `getElementsByTagName`: the page's elements with that tag, in document order. */
  function ElementsByTagName(page: Page, tag: string): (tagged: seq<Element>)
    ensures forall e :: e in tagged <==> e in Nodes(page) && e.tag == tag
  {
    var tagged := Select(Nodes(page), TagIs(tag));
    forall e ensures e in tagged <==> e in Nodes(page) && e.tag == tag {
      SelectMember(Nodes(page), TagIs(tag), e);
    }
    tagged
  }

  /**
   * `getForms`: the page's `form` elements, in document order. Forms are
   * recognised by their tag, as `getFormByName` recognises them too.
   */
  function Forms(page: Page): (forms: seq<Element>)
    ensures forall f :: f in forms <==> f in Nodes(page) && f.tag == "form"
  {
    ElementsByTagName(page, "form")
  }

  /** `getFormByName`: the first form element, in document order, whose name attribute is `name`. */
  function FormByName(page: Page, name: string): (r: Option<Element>)
    ensures r.Some? ==> r.value in Nodes(page) && r.value.tag == "form" && Attribute(r.value, "name") == name
    ensures r.Some? ==>
      var named := Select(Forms(page), AttributeEquals("name", name));
      named != [] && r.value == named[0]
    ensures r.None? <==> forall e :: e in Nodes(page) ==> !(e.tag == "form" && Attribute(e, "name") == name)
  {
    var named := Select(Forms(page), AttributeEquals("name", name));
    forall e ensures e in named <==> e in Nodes(page) && e.tag == "form" && Attribute(e, "name") == name {
      SelectMember(Forms(page), AttributeEquals("name", name), e);
      SelectMember(Nodes(page), TagIs("form"), e);
    }
    if named == [] then None
    else
      assert named[0] in named;
      Some(named[0])
  }
}
