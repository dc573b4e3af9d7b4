/**
 * The element finders of `HtmlUnitUtils`: single lookups through the page's
 * own indexes, filter finders over a tag-filtered element list, finders that
 * demand exactly one match among the descendants of a form, and the lookup
 * of a form by its action.
 */
module HtmlUnitUtils {
  import opened Dom

  /**
   * The exceptions the finders throw. `NoElementFoundException` and
   * `WrongElementException` extend `HtmlUnitException`; the finders throw the
   * base class itself when they find more than one element.
   */
  datatype Failure =
    | HtmlUnitException
    | NoElementFoundException
    | WrongElementException(expected: Kind, actual: Kind)

  datatype Result<T> = Ok(value: T) | Err(failure: Failure)

  /** The cast `(T) element`: accepted when `expected.isAssignableFrom(element.getClass())`. */
  function CheckKind(e: Element, expected: Kind): (r: Result<Element>)
    ensures r.Ok? <==> IsAssignableFrom(expected, e.kind)
    ensures r.Ok? ==> r.value == e
    ensures r.Err? ==> r.failure == WrongElementException(expected, e.kind)
  {
    if IsAssignableFrom(expected, e.kind) then Ok(e) else Err(WrongElementException(expected, e.kind))
  }

  // ----- single lookups -------------------------------------------------

  /** `getElementById`: the page's element with that id, if its class is compatible. */
  function GetElementById(page: Page, id: string, expected: Kind): (r: Result<Element>)
    ensures r == Err(NoElementFoundException) <==> id !in page.byId
    ensures r.Err? && r.failure.WrongElementException? <==>
      id in page.byId && !IsAssignableFrom(expected, page.byId[id].kind)
    ensures r.Err? && r.failure.WrongElementException? ==>
      r.failure == WrongElementException(expected, page.byId[id].kind)
    ensures r.Ok? ==> id in page.byId && r.value == page.byId[id] && IsAssignableFrom(expected, r.value.kind)
  {
    if id !in page.byId then Err(NoElementFoundException)
    else CheckKind(page.byId[id], expected)
  }

  /**
   * `getElementByName`: the element the page's own name lookup yields, if its
   * class is compatible. Duplicate names are the library's business: whatever
   * it returns is checked, no uniqueness is demanded here.
   */
  function GetElementByName(page: Page, name: string, expected: Kind): (r: Result<Element>)
    ensures r == Err(NoElementFoundException) <==> name !in page.byName
    ensures r.Err? && r.failure.WrongElementException? <==>
      name in page.byName && !IsAssignableFrom(expected, page.byName[name].kind)
    ensures r.Err? && r.failure.WrongElementException? ==>
      r.failure == WrongElementException(expected, page.byName[name].kind)
    ensures r.Ok? ==> name in page.byName && r.value == page.byName[name] && IsAssignableFrom(expected, r.value.kind)
  {
    if name !in page.byName then Err(NoElementFoundException)
    else CheckKind(page.byName[name], expected)
  }

  // ----- filter finders -------------------------------------------------

  /** Every element of `s` has a class compatible with `expected`. */
  predicate AllAssignable(s: seq<Element>, expected: Kind) {
    forall i :: 0 <= i < |s| ==> IsAssignableFrom(expected, s[i].kind)
  }

  /**
   * `f` is the `WrongElementException` for the first element of `s`, in
   * order, whose class is not compatible with `expected`.
   */
  predicate FailsAtFirstIncompatible(s: seq<Element>, expected: Kind, f: Failure) {
    exists i ::
      && 0 <= i < |s|
      && AllAssignable(s[..i], expected)
      && !IsAssignableFrom(expected, s[i].kind)
      && f == WrongElementException(expected, s[i].kind)
  }

  /**
   * The loop shared by the three filter finders: collect the candidates that
   * meet `c`, in order, failing on the first match whose class is not
   * compatible. Candidates that do not meet `c` are never checked.
   */
  method CollectMatching(candidates: seq<Element>, c: Criterion, expected: Kind)
    returns (r: Result<seq<Element>>)
    ensures r.Ok? <==> AllAssignable(Select(candidates, c), expected)
    ensures r.Ok? ==> r.value == Select(candidates, c)
    ensures r.Err? ==> FailsAtFirstIncompatible(Select(candidates, c), expected, r.failure)
  {
    var list := [];
    var i := 0;
    while i < |candidates|
      invariant 0 <= i <= |candidates|
      invariant list == Select(candidates[..i], c)
      invariant AllAssignable(list, expected)
    {
      var e := candidates[i];
      assert candidates[..i + 1] == candidates[..i] + [e];
      SelectAppend(candidates[..i], [e], c);
      if Matches(e, c) {
        if !IsAssignableFrom(expected, e.kind) {
          assert candidates == candidates[..i + 1] + candidates[i + 1..];
          SelectAppend(candidates[..i + 1], candidates[i + 1..], c);
          assert Select(candidates, c)[|list|] == e;
          assert Select(candidates, c)[..|list|] == list;
          return Err(WrongElementException(expected, e.kind));
        }
        list := list + [e];
      }
      i := i + 1;
    }
    assert candidates[..i] == candidates;
    return Ok(list);
  }

  /** The tag-filtered list, then the criterion: exactly the page's elements with that tag meeting `c`. */
  lemma TaggedSelection(page: Page, tag: string, c: Criterion)
    ensures forall e :: e in Select(ElementsByTagName(page, tag), c) <==>
      e in Nodes(page) && e.tag == tag && Matches(e, c)
  {
    forall e ensures e in Select(ElementsByTagName(page, tag), c) <==>
      e in Nodes(page) && e.tag == tag && Matches(e, c)
    {
      SelectMember(ElementsByTagName(page, tag), c, e);
      SelectMember(Nodes(page), TagIs(tag), e);
    }
  }

  /** The contracts the three filter finders share, phrased over the page's elements. */
  lemma FilterOutcome(page: Page, tag: string, c: Criterion, expected: Kind, r: Result<seq<Element>>)
    requires var sel := Select(ElementsByTagName(page, tag), c);
      && (r.Ok? <==> AllAssignable(sel, expected))
      && (r.Ok? ==> r.value == sel)
      && (r.Err? ==> FailsAtFirstIncompatible(sel, expected, r.failure))
    ensures r.Ok? <==>
      forall e :: e in Nodes(page) && e.tag == tag && Matches(e, c) ==> IsAssignableFrom(expected, e.kind)
    ensures r.Ok? ==> forall e :: e in r.value <==> e in Nodes(page) && e.tag == tag && Matches(e, c)
    ensures r.Err? ==> (
      && r.failure.WrongElementException? && r.failure.expected == expected
      && exists e :: e in Nodes(page) && e.tag == tag && Matches(e, c) && e.kind == r.failure.actual &&
                     !IsAssignableFrom(expected, e.kind))
  {
    var sel := Select(ElementsByTagName(page, tag), c);
    TaggedSelection(page, tag, c);
    if r.Err? {
      var i :| 0 <= i < |sel| && AllAssignable(sel[..i], expected) && !IsAssignableFrom(expected, sel[i].kind)
               && r.failure == WrongElementException(expected, sel[i].kind);
      assert sel[i] in sel;
    }
  }

  /**
   * `getElementsByAttribute`: the elements with that tag whose attribute
   * equals `value`, in document order; an empty list when there are none.
   */
  method GetElementsByAttribute(page: Page, tagName: string, attribute: string, value: string, expected: Kind)
    returns (r: Result<seq<Element>>)
    ensures r.Ok? ==> r.value == Select(ElementsByTagName(page, tagName), AttributeEquals(attribute, value))
    ensures r.Err? ==> FailsAtFirstIncompatible(Select(ElementsByTagName(page, tagName), AttributeEquals(attribute, value)), expected, r.failure)
    ensures r.Ok? ==> forall e :: e in r.value <==>
      e in Nodes(page) && e.tag == tagName && Attribute(e, attribute) == value
    ensures r.Ok? <==> forall e :: e in Nodes(page) && e.tag == tagName && Attribute(e, attribute) == value ==>
      IsAssignableFrom(expected, e.kind)
    ensures r.Err? ==> (
      && r.failure.WrongElementException? && r.failure.expected == expected
      && exists e :: e in Nodes(page) && e.tag == tagName && Attribute(e, attribute) == value &&
                     e.kind == r.failure.actual && !IsAssignableFrom(expected, e.kind))
  {
    r := CollectMatching(ElementsByTagName(page, tagName), AttributeEquals(attribute, value), expected);
    FilterOutcome(page, tagName, AttributeEquals(attribute, value), expected, r);
  }

  /** `getElementsByAttributeContains`: as above, with the attribute containing `value`. */
  method GetElementsByAttributeContains(page: Page, tagName: string, attribute: string, value: string, expected: Kind)
    returns (r: Result<seq<Element>>)
    ensures r.Ok? ==> r.value == Select(ElementsByTagName(page, tagName), AttributeContains(attribute, value))
    ensures r.Err? ==> FailsAtFirstIncompatible(Select(ElementsByTagName(page, tagName), AttributeContains(attribute, value)), expected, r.failure)
    ensures r.Ok? ==> forall e :: e in r.value <==>
      e in Nodes(page) && e.tag == tagName && Contains(Attribute(e, attribute), value)
    ensures r.Ok? <==> forall e :: e in Nodes(page) && e.tag == tagName && Contains(Attribute(e, attribute), value) ==>
      IsAssignableFrom(expected, e.kind)
    ensures r.Err? ==> (
      && r.failure.WrongElementException? && r.failure.expected == expected
      && exists e :: e in Nodes(page) && e.tag == tagName && Contains(Attribute(e, attribute), value) &&
                     e.kind == r.failure.actual && !IsAssignableFrom(expected, e.kind))
  {
    r := CollectMatching(ElementsByTagName(page, tagName), AttributeContains(attribute, value), expected);
    FilterOutcome(page, tagName, AttributeContains(attribute, value), expected, r);
  }

  /** `getElementsByTextContents`: the elements with that tag whose text content is exactly `text`. */
  method GetElementsByTextContents(page: Page, tagName: string, text: string, expected: Kind)
    returns (r: Result<seq<Element>>)
    ensures r.Ok? ==> r.value == Select(ElementsByTagName(page, tagName), TextEquals(text))
    ensures r.Err? ==> FailsAtFirstIncompatible(Select(ElementsByTagName(page, tagName), TextEquals(text)), expected, r.failure)
    ensures r.Ok? ==> forall e :: e in r.value <==> e in Nodes(page) && e.tag == tagName && e.text == text
    ensures r.Ok? <==> forall e :: e in Nodes(page) && e.tag == tagName && e.text == text ==>
      IsAssignableFrom(expected, e.kind)
    ensures r.Err? ==> (
      && r.failure.WrongElementException? && r.failure.expected == expected
      && exists e :: e in Nodes(page) && e.tag == tagName && e.text == text &&
                     e.kind == r.failure.actual && !IsAssignableFrom(expected, e.kind))
  {
    r := CollectMatching(ElementsByTagName(page, tagName), TextEquals(text), expected);
    FilterOutcome(page, tagName, TextEquals(text), expected, r);
  }

  // ----- finders of the sole matching descendant of a form --------------

  /**
   * The order in which the explicit stack of the form finders visits
   * elements: the top of the stack (its last element) is popped, then its
   * children are pushed in document order, so the last child comes next.
   */
  function Walk(stack: seq<Element>): (visits: seq<Element>)
    ensures stack == [] <==> visits == []
    ensures stack != [] ==> visits[0] == stack[|stack| - 1]
    decreases |Flatten(stack)|
  {
    if stack == [] then []
    else
      var top := stack[|stack| - 1];
      PopPush(stack);
      [top] + Walk(stack[..|stack| - 1] + top.children)
  }

  /** Popping the top and pushing its children shrinks what is left to visit by one element. */
  lemma PopPush(stack: seq<Element>)
    requires stack != []
    ensures var top := stack[|stack| - 1];
      |Flatten(stack[..|stack| - 1] + top.children)| + 1 == |Flatten(stack)|
  {
    var top, rest := stack[|stack| - 1], stack[..|stack| - 1];
    assert stack == rest + [top];
    FlattenAppend(rest, [top]);
    FlattenAppend(rest, top.children);
    FlattenSingle(top);
  }

  /** One turn of the loop moves the top of the stack from what is left to visit to what was visited. */
  lemma WalkStep(visited: seq<Element>, stack: seq<Element>)
    requires stack != []
    ensures var top := stack[|stack| - 1];
      visited + Walk(stack) == (visited + [top]) + Walk(stack[..|stack| - 1] + top.children)
  {
    var top := stack[|stack| - 1];
    var rest := Walk(stack[..|stack| - 1] + top.children);
    assert Walk(stack) == [top] + rest by { PopPush(stack); }
  }

  /** The listing of a stack: the trees below the top, then the top and its descendants. */
  lemma FlattenPop(stack: seq<Element>)
    requires stack != []
    ensures var top := stack[|stack| - 1];
      Flatten(stack) == Flatten(stack[..|stack| - 1]) + ([top] + Flatten(top.children))
  {
    var top, rest := stack[|stack| - 1], stack[..|stack| - 1];
    assert stack == rest + [top];
    FlattenAppend(rest, [top]);
    FlattenSingle(top);
  }

  /** Popping the top and pushing its children leaves the same elements to visit, less the top. */
  lemma PopPushContents(stack: seq<Element>)
    requires stack != []
    ensures var top := stack[|stack| - 1];
      multiset(Flatten(stack)) == multiset([top]) + multiset(Flatten(stack[..|stack| - 1] + top.children))
  {
    var top, rest := stack[|stack| - 1], stack[..|stack| - 1];
    var fr, fc := Flatten(rest), Flatten(top.children);
    FlattenPop(stack);
    FlattenAppend(rest, top.children);
    calc {
      multiset(Flatten(stack));
      multiset(fr) + (multiset([top]) + multiset(fc));
      multiset([top]) + multiset(fr + fc);
    }
  }

  /** The stack walk visits every element of the trees on the stack exactly once. */
  lemma {:induction false} WalkVisitsEachOnce(stack: seq<Element>)
    ensures multiset(Walk(stack)) == multiset(Flatten(stack))
    decreases |Flatten(stack)|
  {
    if stack != [] {
      var top := stack[|stack| - 1];
      var next := stack[..|stack| - 1] + top.children;
      assert Walk(stack) == [top] + Walk(next) by { PopPush(stack); }
      PopPush(stack);
      WalkVisitsEachOnce(next);
      PopPushContents(stack);
    }
  }

  /** Walking a form's children visits each proper descendant once and never the form itself. */
  lemma WalkOfForm(form: Element)
    ensures multiset(Walk(form.children)) == multiset(Descendants(form))
    ensures form !in Walk(form.children)
  {
    WalkVisitsEachOnce(form.children);
    NotOwnDescendant(form);
    assert form !in multiset(Descendants(form));
  }

  /**
   * The stack loop shared by the form finders: the unique proper descendant
   * of `form` meeting `c`; `NoElementFoundException` when there is none and
   * the base `HtmlUnitException` as soon as a second one turns up.
   */
  method SoleDescendant(form: Element, c: Criterion) returns (r: Result<Element>)
    ensures var hits := Select(Descendants(form), c);
      && (|hits| == 0 ==> r == Err(NoElementFoundException))
      && (|hits| == 1 ==> r == Ok(hits[0]))
      && (|hits| >= 2 ==> r == Err(HtmlUnitException))
  {
    ghost var all := Walk(form.children);
    WalkOfForm(form);
    SelectPermutation(all, Descendants(form), c);
    var stack := form.children;
    var found: Option<Element> := None;
    ghost var visited: seq<Element> := [];
    while stack != []
      invariant all == visited + Walk(stack)
      invariant found.None? ==> Select(visited, c) == []
      invariant found.Some? ==> Select(visited, c) == [found.value]
      decreases |Flatten(stack)|
    {
      var it := stack[|stack| - 1];
      var next := stack[..|stack| - 1] + it.children;
      ghost var sofar := visited + [it];
      WalkStep(visited, stack);
      SelectSnoc(visited, it, c);
      if Matches(it, c) {
        if found.Some? {
          SelectAppend(sofar, Walk(next), c);
          assert |Select(sofar, c)| == 2;
          return Err(HtmlUnitException);
        }
        found := Some(it);
      }
      PopPush(stack);
      stack := next;
      visited := sofar;
    }
    assert visited == all;
    if found.None? {
      return Err(NoElementFoundException);
    }
    LoneMatchIndependentOfOrder(all, Descendants(form), c);
    return Ok(found.value);
  }

  /**
   * `getFormElementByType(form, type)`: the unique descendant of `form` whose
   * class is compatible with `expected`.
   */
  method GetFormElementByType(form: Element, expected: Kind) returns (r: Result<Element>)
    ensures var hits := Select(Descendants(form), OfType(expected));
      && (r == Err(NoElementFoundException) <==> |hits| == 0)
      && (r == Err(HtmlUnitException) <==> |hits| >= 2)
      && (r.Ok? <==> |hits| == 1)
      && (r.Ok? ==> r.value == hits[0])
    ensures r.Ok? ==> r.value in Descendants(form) && IsAssignableFrom(expected, r.value.kind)
    ensures r.Ok? ==> forall e :: e in Descendants(form) && IsAssignableFrom(expected, e.kind) ==> e == r.value
    ensures !(r.Err? && r.failure.WrongElementException?)
  {
    r := SoleDescendant(form, OfType(expected));
    var hits := Select(Descendants(form), OfType(expected));
    if r.Ok? {
      assert hits == [r.value];
      forall e | e in Descendants(form) && IsAssignableFrom(expected, e.kind) ensures e == r.value {
        SelectMember(Descendants(form), OfType(expected), e);
      }
      SelectMember(Descendants(form), OfType(expected), r.value);
    }
  }

  /**
   * `getFormElementByName`: matches are counted by name whatever their class;
   * more than one is ambiguous before any class check, and the class of a
   * lone match is checked last.
   */
  method GetFormElementByName(form: Element, name: string, expected: Kind) returns (r: Result<Element>)
    ensures var hits := Select(Descendants(form), AttributeEquals("name", name));
      && (|hits| == 0 ==> r == Err(NoElementFoundException))
      && (|hits| >= 2 ==> r == Err(HtmlUnitException))
      && (|hits| == 1 ==> r == CheckKind(hits[0], expected))
    ensures r.Ok? ==> (
      r.value in Descendants(form) && Attribute(r.value, "name") == name && IsAssignableFrom(expected, r.value.kind))
    ensures r.Err? && r.failure.WrongElementException? ==>
      r.failure.expected == expected && !IsAssignableFrom(expected, r.failure.actual)
  {
    var found := SoleDescendant(form, AttributeEquals("name", name));
    if found.Err? {
      return found;
    }
    var hits := Select(Descendants(form), AttributeEquals("name", name));
    assert hits == [found.value];
    SelectMember(Descendants(form), AttributeEquals("name", name), found.value);
    r := CheckKind(found.value, expected);
  }

  /** `getFormElementByNameAndValue`: as `getFormElementByName`, matching both the name and the value attribute. */
  method GetFormElementByNameAndValue(form: Element, name: string, value: string, expected: Kind)
    returns (r: Result<Element>)
    ensures var hits := Select(Descendants(form), NameAndValue(name, value));
      && (|hits| == 0 ==> r == Err(NoElementFoundException))
      && (|hits| >= 2 ==> r == Err(HtmlUnitException))
      && (|hits| == 1 ==> r == CheckKind(hits[0], expected))
    ensures r.Ok? ==> (
      && r.value in Descendants(form) && Attribute(r.value, "name") == name
      && Attribute(r.value, "value") == value && IsAssignableFrom(expected, r.value.kind))
    ensures r.Err? && r.failure.WrongElementException? ==>
      r.failure.expected == expected && !IsAssignableFrom(expected, r.failure.actual)
  {
    var found := SoleDescendant(form, NameAndValue(name, value));
    if found.Err? {
      return found;
    }
    var hits := Select(Descendants(form), NameAndValue(name, value));
    assert hits == [found.value];
    SelectMember(Descendants(form), NameAndValue(name, value), found.value);
    r := CheckKind(found.value, expected);
  }

  /**
   * `getFormElementByType(page, formName, type)`: the form is looked up by
   * name first; a missing form is reported before any traversal.
   */
  method GetPageFormElementByType(page: Page, formName: string, expected: Kind) returns (r: Result<Element>)
    ensures FormByName(page, formName).None? ==> r == Err(NoElementFoundException)
    ensures FormByName(page, formName).Some? ==>
      var hits := Select(Descendants(FormByName(page, formName).value), OfType(expected));
      && (r == Err(NoElementFoundException) <==> |hits| == 0)
      && (r == Err(HtmlUnitException) <==> |hits| >= 2)
      && (r.Ok? <==> |hits| == 1)
      && (r.Ok? ==> r.value == hits[0])
  {
    var form := FormByName(page, formName);
    if form.None? {
      return Err(NoElementFoundException);
    }
    r := GetFormElementByType(form.value, expected);
  }

  // ----- form by action ---------------------------------------------------

  /** `getFormByAction`: the first form in document order whose action attribute is `action`. */
  method GetFormByAction(page: Page, action: string) returns (r: Result<Element>)
    ensures r.Err? <==> forall f :: f in Forms(page) ==> Attribute(f, "action") != action
    ensures r.Err? ==> r.failure == NoElementFoundException
    ensures r.Ok? ==> exists i ::
      && 0 <= i < |Forms(page)|
      && r.value == Forms(page)[i]
      && Attribute(r.value, "action") == action
      && forall j :: 0 <= j < i ==> Attribute(Forms(page)[j], "action") != action
  {
    var forms := Forms(page);
    var i := 0;
    while i < |forms|
      invariant 0 <= i <= |forms|
      invariant forall j :: 0 <= j < i ==> Attribute(forms[j], "action") != action
    {
      if Attribute(forms[i], "action") == action {
        return Ok(forms[i]);
      }
      i := i + 1;
    }
    return Err(NoElementFoundException);
  }

  // ----- the duplicate-name test form ------------------------------------------

  function Input(kind: Kind, attributes: map<string, string>): (e: Element) {
    Element(kind, "input", attributes, "", [])
  }

  /** The form of the name-lookup test: two inputs named `duplicate`, one named `input1`, an image input. */
  function DuplicateNameForm(): (form: Element) {
    Element(HtmlForm, "form", map["name" := "testform", "action" := "do"], "", [
      Input(HtmlTextInput, map["type" := "text", "name" := "duplicate"]),
      Input(HtmlTextInput, map["type" := "text", "name" := "duplicate"]),
      Input(HtmlTextInput, map["type" := "text", "name" := "input1", "value" := "value1"]),
      Input(HtmlImageInput, map["type" := "image"])])
  }

  /** In that form `duplicate` is ambiguous and `input1` names exactly the one text input. */
  lemma DuplicateNameFormLookups()
    ensures |Select(Descendants(DuplicateNameForm()), AttributeEquals("name", "duplicate"))| == 2
    ensures Select(Descendants(DuplicateNameForm()), AttributeEquals("name", "input1")) ==
      [Input(HtmlTextInput, map["type" := "text", "name" := "input1", "value" := "value1"])]
    ensures Select(Descendants(DuplicateNameForm()), AttributeEquals("name", "notexisting")) == []
  {
    var cs := DuplicateNameForm().children;
    assert Descendants(DuplicateNameForm()) == cs by {
      forall k | 0 <= k < |cs| ensures cs[k].children == [] { }
      FlattenLeaves(cs);
    }
    assert Attribute(cs[3], "name") == "";
    assert cs == [cs[0], cs[1]] + [cs[2], cs[3]];
    SelectAppend([cs[0], cs[1]], [cs[2], cs[3]], AttributeEquals("name", "duplicate"));
    SelectAppend([cs[0], cs[1]], [cs[2], cs[3]], AttributeEquals("name", "input1"));
    SelectAppend([cs[0], cs[1]], [cs[2], cs[3]], AttributeEquals("name", "notexisting"));
  }

  /** A forest of leaves lists just its roots. */
  lemma {:induction false} FlattenLeaves(forest: seq<Element>)
    requires forall k :: 0 <= k < |forest| ==> forest[k].children == []
    ensures Flatten(forest) == forest
  {
    if forest != [] {
      FlattenLeaves(forest[1..]);
    }
  }

  // ----- waiting for text ----------------------------------------------------

  /** The number of polls `waitForText` makes: Java's `waitMS / 100`, which truncates toward zero. */
  function Polls(waitMS: int): (polls: nat)
    ensures waitMS < 100 ==> polls == 0
    ensures waitMS >= 0 ==> polls * 100 <= waitMS < polls * 100 + 100
  {
    if waitMS <= 0 then 0 else waitMS / 100
  }

  /**
   * `waitForText` as written. `snapshots[i]` is the markup `asXml` gives
   * after `i` pauses of 100 ms. The loop leaves as soon as the text is
   * absent, and the final `checkState` decides; `ok` false stands for its
   * `IllegalStateException`.
   */
  method WaitForTextAsWritten(snapshots: seq<string>, str: string, waitMS: int) returns (ok: bool)
    requires |snapshots| == Polls(waitMS) + 1
    ensures ok <==> forall i :: 0 <= i < |snapshots| ==> Contains(snapshots[i], str)
  {
    var i := 0;
    while i < Polls(waitMS)
      invariant 0 <= i <= Polls(waitMS)
      invariant forall j :: 0 <= j < i ==> Contains(snapshots[j], str)
    {
      if !Contains(snapshots[i], str) {
        break;
      }
      i := i + 1;
    }
    ok := Contains(snapshots[i], str);
  }

  /**
   * `waitForText` as its documentation describes it: poll until the text
   * appears or the time is up. It succeeds exactly when some poll sees the
   * text, and stops after `pauses` pauses, at the first poll that sees it.
   */
  method WaitForText(snapshots: seq<string>, str: string, waitMS: int) returns (ok: bool, pauses: nat)
    requires |snapshots| == Polls(waitMS) + 1
    ensures ok <==> exists i :: 0 <= i < |snapshots| && Contains(snapshots[i], str)
    ensures pauses < |snapshots|
    ensures ok ==> Contains(snapshots[pauses], str)
    ensures !ok ==> pauses == |snapshots| - 1
    ensures forall j :: 0 <= j < pauses ==> !Contains(snapshots[j], str)
  {
    var i := 0;
    while i < Polls(waitMS)
      invariant 0 <= i <= Polls(waitMS)
      invariant forall j :: 0 <= j < i ==> !Contains(snapshots[j], str)
    {
      if Contains(snapshots[i], str) {
        break;
      }
      i := i + 1;
    }
    ok, pauses := Contains(snapshots[i], str), i;
  }

  /**
   * Text that appears after the first poll: the code as written gives up at
   * once, although the text shows up well within the 100 ms budget.
   */
  lemma WaitForTextMissesLateText()
    ensures var snapshots := ["", "Ok"];
      && |snapshots| == Polls(100) + 1
      && !(forall i :: 0 <= i < |snapshots| ==> Contains(snapshots[i], "Ok"))
      && (exists i :: 0 <= i < |snapshots| && Contains(snapshots[i], "Ok"))
  {
    var snapshots := ["", "Ok"];
    assert !Contains(snapshots[0], "Ok");
    assert Contains(snapshots[1], "Ok");
  }
}
