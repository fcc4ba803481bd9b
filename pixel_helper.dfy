/** PixelMEDIA.PixelWeb.Components.PixelHelper: the view helper's decision
    rules (sort links, navigation links, the current-page test), its message
    accessors and its attribute rendering. The rendering of links and forms
    by ASP.NET MVC is not part of this model. */
module PixelHelperModel {
  import opened Wrappers
  import opened Values
  import opened PagedSortedListModel
  import opened PixelControllerModel

  // ---- RouteValueDictionary ----

  /** The ordinal case-insensitive comparer of RouteValueDictionary, on the
      ASCII letters. */
  function UpperAscii(c: char): (r: char)
    ensures 'a' <= c <= 'z' ==> 'A' <= r <= 'Z'
    ensures !('a' <= c <= 'z') ==> r == c
  {
    if 'a' <= c <= 'z' then (c as int - 32) as char else c
  }

  function Fold(s: string): (r: string)
    ensures |r| == |s|
    ensures forall i :: 0 <= i < |s| ==> r[i] == UpperAscii(s[i])
  {
    if s == [] then [] else [UpperAscii(s[0])] + Fold(s[1..])
  }

  type Entries = seq<(string, Value)>

  /** No two keys are equal ignoring case. */
  predicate KeysDistinct(entries: Entries) {
    forall i, j :: 0 <= i < j < |entries| ==> Fold(entries[i].0) != Fold(entries[j].0)
  }

  /** The position of the entry whose key equals key ignoring case. */
  function IndexOfKey(entries: Entries, key: string): (r: Option<nat>)
    ensures r.Some? ==> r.value < |entries| && Fold(entries[r.value].0) == Fold(key)
    ensures r.None? ==> forall i :: 0 <= i < |entries| ==> Fold(entries[i].0) != Fold(key)
  {
    if entries == [] then None
    else if Fold(entries[0].0) == Fold(key) then Some(0)
    else match IndexOfKey(entries[1..], key)
      case None => None
      case Some(i) => Some(i + 1)
  }

  /** dictionary[key]: the value, or null for a missing key. */
  function Lookup(entries: Entries, key: string): Value {
    match IndexOfKey(entries, key)
    case Some(i) => entries[i].1
    case None => Null
  }

  /** dictionary[key] = value: replaces the value of the existing key (which
      keeps its spelling and place) or appends a new entry. */
  function SetEntry(entries: Entries, key: string, value: Value): Entries {
    match IndexOfKey(entries, key)
    case Some(i) => entries[i := (entries[i].0, value)]
    case None => entries + [(key, value)]
  }

  /** After a set, the key reads back the value and every other key reads as
      before; the keys stay distinct and the existing entries keep their
      order. */
  lemma SetEntrySpec(entries: Entries, key: string, value: Value, other: string)
    requires KeysDistinct(entries)
    ensures KeysDistinct(SetEntry(entries, key, value))
    ensures Lookup(SetEntry(entries, key, value), key) == value
    ensures Fold(other) != Fold(key) ==> Lookup(SetEntry(entries, key, value), other) == Lookup(entries, other)
    ensures var e := SetEntry(entries, key, value);
            |entries| <= |e| <= |entries| + 1 && forall i :: 0 <= i < |entries| ==> e[i].0 == entries[i].0
  {
    var e := SetEntry(entries, key, value);
    match IndexOfKey(entries, key)
    case Some(i) =>
      assert forall j :: 0 <= j < |e| ==> e[j].0 == entries[j].0;
      LookupByIndex(e, key, i);
      if Fold(other) != Fold(key) {
        match IndexOfKey(entries, other)
        case Some(k) => LookupByIndex(e, other, k);
        case None =>
      }
    case None =>
      LookupByIndex(e, key, |entries|);
      if Fold(other) != Fold(key) {
        match IndexOfKey(entries, other)
        case Some(k) => LookupByIndex(e, other, k);
        case None =>
      }
  }

  /** In a dictionary with distinct keys, the entry at i is the one a lookup
      of its key finds. */
  lemma LookupByIndex(entries: Entries, key: string, i: nat)
    requires KeysDistinct(entries) && i < |entries| && Fold(entries[i].0) == Fold(key)
    ensures Lookup(entries, key) == entries[i].1
  {
    var j := IndexOfKey(entries, key).value;
    assert j == i;
  }

  /** A RouteValueDictionary, as an ordered list of its entries. */
  class RouteValueDictionary {
    var entries: Entries

    constructor (entries: Entries)
      requires KeysDistinct(entries)
      ensures this.entries == entries
    {
      this.entries := entries;
    }

    predicate ContainsKey(key: string)
      reads this
    {
      IndexOfKey(entries, key).Some?
    }

    function Get(key: string): (r: Value)
      reads this
      ensures !ContainsKey(key) ==> r == Null
    {
      Lookup(entries, key)
    }

    /** The indexer's setter. */
    method Set(key: string, value: Value)
      modifies this
      ensures entries == SetEntry(old(entries), key, value)
    {
      entries := SetEntry(entries, key, value);
    }
  }

  // ---- Sort links ----

  /** A boxed ListSortDirection. */
  function DirectionValue(d: SortDirection): Value {
    match d
    case Ascending => Other("ListSortDirection.Ascending")
    case Descending => Other("ListSortDirection.Descending")
  }

  function Flip(d: SortDirection): (r: SortDirection)
    ensures r != d
  {
    match d
    case Ascending => Descending
    case Descending => Ascending
  }

  /** The route values and HTML attributes SortLink hands to ActionLink. */
  method SortLink(routeValues: Entries, htmlAttributes: Entries, thisSortColumn: Value, currentSortColumn: Value,
                  currentSortDirection: SortDirection, ascendingClass: string, descendingClass: string,
                  equals: (Value, Value) -> bool)
    returns (route: RouteValueDictionary, attrs: RouteValueDictionary)
    requires KeysDistinct(routeValues) && KeysDistinct(htmlAttributes)
    ensures fresh(route) && fresh(attrs)
    ensures var current := ObjectEquals(thisSortColumn, currentSortColumn, equals);
            var dir := if current then Flip(currentSortDirection) else Ascending;
            && route.entries == SetEntry(SetEntry(routeValues, "sort", thisSortColumn), "sortDir", DirectionValue(dir))
            && attrs.entries == (if !current then htmlAttributes
                                 else SetEntry(htmlAttributes, "class",
                                               Str(if currentSortDirection == Ascending then ascendingClass else descendingClass)))
  {
    route := new RouteValueDictionary(routeValues);
    attrs := new RouteValueDictionary(htmlAttributes);
    route.Set("sort", thisSortColumn);
    if ObjectEquals(thisSortColumn, currentSortColumn, equals) {
      match currentSortDirection {
        case Ascending =>
          route.Set("sortDir", DirectionValue(Descending));
          attrs.Set("class", Str(ascendingClass));
        case Descending =>
          route.Set("sortDir", DirectionValue(Ascending));
          attrs.Set("class", Str(descendingClass));
      }
    } else {
      route.Set("sortDir", DirectionValue(Ascending));
    }
  }

  /** What a sort link says: sort on this column; for the current column the
      opposite direction and the class of the current direction, otherwise
      ascending with the attributes left alone. */
  lemma SortLinkReads(routeValues: Entries, htmlAttributes: Entries, thisSortColumn: Value, current: bool,
                      currentSortDirection: SortDirection, ascendingClass: string, descendingClass: string)
    requires KeysDistinct(routeValues) && KeysDistinct(htmlAttributes)
    ensures var dir := if current then Flip(currentSortDirection) else Ascending;
            var route := SetEntry(SetEntry(routeValues, "sort", thisSortColumn), "sortDir", DirectionValue(dir));
            && Lookup(route, "sort") == thisSortColumn
            && Lookup(route, "sortDir") == DirectionValue(if current then Flip(currentSortDirection) else Ascending)
            && (forall k :: Fold(k) != Fold("sort") && Fold(k) != Fold("sortDir") ==> Lookup(route, k) == Lookup(routeValues, k))
    ensures current ==>
              Lookup(SetEntry(htmlAttributes, "class", Str(if currentSortDirection == Ascending then ascendingClass else descendingClass)), "class")
              == Str(if currentSortDirection == Ascending then ascendingClass else descendingClass)
  {
    var dir := if current then Flip(currentSortDirection) else Ascending;
    var once := SetEntry(routeValues, "sort", thisSortColumn);
    SetEntrySpec(routeValues, "sort", thisSortColumn, "sortDir");
    assert Fold("sortDir") != Fold("sort") by { assert |Fold("sortDir")| != |Fold("sort")|; }
    SetEntrySpec(once, "sortDir", DirectionValue(dir), "sort");
    forall k | Fold(k) != Fold("sort") && Fold(k) != Fold("sortDir")
      ensures Lookup(SetEntry(once, "sortDir", DirectionValue(dir)), k) == Lookup(routeValues, k)
    {
      SetEntrySpec(routeValues, "sort", thisSortColumn, k);
      SetEntrySpec(once, "sortDir", DirectionValue(dir), k);
    }
    var cls := Str(if currentSortDirection == Ascending then ascendingClass else descendingClass);
    SetEntrySpec(htmlAttributes, "class", cls, "class");
  }

  /** Following the link of the current column twice sorts as before. */
  lemma FlipTwice(d: SortDirection)
    ensures Flip(Flip(d)) == d
  {
  }

  // ---- The current page ----

  /** String.Equals(a, b, CurrentCultureIgnoreCase), with `fold` for the
      culture's case folding: two nulls are equal, a null and a string not. */
  function EqualsIgnoreCase(a: Option<string>, b: Option<string>, fold: string -> string): bool {
    if a.None? || b.None? then a == b else fold(a.value) == fold(b.value)
  }

  /** The route data PixelHelper reads: the action and controller route
      values and the area data token. */
  datatype RouteData = RouteData(action: Option<string>, controller: Option<string>, area: Value)

  class PixelHelper {
    const route: RouteData
    const pixelController: PixelController
    /** Object.ToString of an area token that is not a string. */
    const toString: Value -> string
    /** The current culture's case folding. */
    const fold: string -> string

    constructor (route: RouteData, pixelController: PixelController, toString: Value -> string, fold: string -> string)
      ensures this.route == route && this.pixelController == pixelController
      ensures this.toString == toString && this.fold == fold
    {
      this.route := route;
      this.pixelController := pixelController;
      this.toString := toString;
      this.fold := fold;
    }

    /** AreaName: the area token as a string, "" when there is none. */
    function AreaName(): (r: string)
      ensures route.area == Null ==> r == ""
      ensures route.area.Str? ==> r == route.area.s
    {
      ConvertToString(route.area, toString)
    }

    /** IsCurrentPage(actionName, controllerName, areaName): action and
        controller match ignoring case, and so does the area unless areaName
        is null. */
    predicate IsCurrentPage(actionName: Option<string>, controllerName: Option<string>, areaName: Option<string>) {
      && EqualsIgnoreCase(route.action, actionName, fold)
      && EqualsIgnoreCase(route.controller, controllerName, fold)
      && (areaName.Some? ==> EqualsIgnoreCase(Some(AreaName()), areaName, fold))
    }

    /** The page's own action, controller and area name the current page; a
        null area is the same test as the current area; naming an area only
        narrows the test; and a null action never matches a set one. */
    lemma IsCurrentPageSpec(actionName: Option<string>, controllerName: Option<string>, areaName: string)
      ensures IsCurrentPage(route.action, route.controller, Some(AreaName()))
      ensures IsCurrentPage(actionName, controllerName, None) <==> IsCurrentPage(actionName, controllerName, Some(AreaName()))
      ensures IsCurrentPage(actionName, controllerName, Some(areaName)) ==> IsCurrentPage(actionName, controllerName, None)
      ensures actionName.None? != route.action.None? ==> !IsCurrentPage(actionName, controllerName, Some(areaName))
    {
    }

    /** The HTML attributes NavigationLink hands to ActionLink: on the current
        page the class becomes the existing class, a space and selectedClass
        (just selectedClass when there was none). The area compared is the
        Area route value, "" when absent. */
    method NavigationLink(actionName: Option<string>, controllerName: Option<string>, routeValues: Entries,
                          htmlAttributes: Entries, selectedClass: string)
      returns (routes: RouteValueDictionary, attrs: RouteValueDictionary)
      requires KeysDistinct(routeValues) && KeysDistinct(htmlAttributes)
      ensures fresh(routes) && fresh(attrs) && routes.entries == routeValues
      ensures var areaName := if IndexOfKey(routeValues, "Area").Some? then ConvertToString(Lookup(routeValues, "Area"), toString) else "";
              var classStub := if IndexOfKey(htmlAttributes, "class").Some? then ConvertToString(Lookup(htmlAttributes, "class"), toString) + " " else "";
              && (IsCurrentPage(actionName, controllerName, Some(areaName)) ==>
                    attrs.entries == SetEntry(htmlAttributes, "class", Str(classStub + selectedClass)))
              && (!IsCurrentPage(actionName, controllerName, Some(areaName)) ==> attrs.entries == htmlAttributes)
    {
      routes := new RouteValueDictionary(routeValues);
      attrs := new RouteValueDictionary(htmlAttributes);
      var classStub := if attrs.ContainsKey("class") then ConvertToString(attrs.Get("class"), toString) + " " else "";
      var areaName := if routes.ContainsKey("Area") then ConvertToString(routes.Get("Area"), toString) else "";
      if IsCurrentPage(actionName, controllerName, Some(areaName)) {
        attrs.Set("class", Str(classStub + selectedClass));
      }
    }

    /** Messages and Errors: the current list followed by the redirect list.
        Reaching a list creates it when absent; an entry that is not a list
        makes Concat throw ArgumentNullException. The enumeration is taken
        at once. */
    method Combined(current: Bucket, redirect: Bucket) returns (r: Result<seq<string>>)
      requires (current, redirect) == (CurrentMessages, RedirectMessages) || (current, redirect) == (CurrentErrors, RedirectErrors)
      requires pixelController.Valid()
      modifies pixelController, pixelController.viewData, pixelController.tempData
      ensures pixelController.Valid()
      ensures r.Err? <==> old(pixelController.State(current)).NotAList? || old(pixelController.State(redirect)).NotAList?
      ensures r.Err? ==> r.fault == ArgumentNull
      ensures r.Ok? ==> r.value == ItemsOf(old(pixelController.State(current))) + ItemsOf(old(pixelController.State(redirect)))
      ensures forall b :: ItemsOf(pixelController.State(b)) == ItemsOf(old(pixelController.State(b)))
    {
      var first := pixelController.Collection(current);
      pixelController.StateOfList(current);
      var second := pixelController.Collection(redirect);
      pixelController.StateOfList(redirect);
      if first == null || second == null {
        return Err(ArgumentNull);
      }
      r := Ok(first.items + second.items);
    }

    /** HasMessages and HasErrors: the two lists hold something between them.
        An entry that is not a list makes Count throw NullReferenceException
        (the redirect list is not reached when the current one fails). */
    method HasAny(current: Bucket, redirect: Bucket) returns (r: Result<bool>)
      requires (current, redirect) == (CurrentMessages, RedirectMessages) || (current, redirect) == (CurrentErrors, RedirectErrors)
      requires pixelController.Valid()
      modifies pixelController, pixelController.viewData, pixelController.tempData
      ensures pixelController.Valid()
      ensures r.Err? <==> old(pixelController.State(current)).NotAList? || old(pixelController.State(redirect)).NotAList?
      ensures r.Err? ==> r.fault == NullReference
      ensures r.Ok? ==> (r.value <==> ItemsOf(old(pixelController.State(current))) + ItemsOf(old(pixelController.State(redirect))) != [])
      ensures forall b :: ItemsOf(pixelController.State(b)) == ItemsOf(old(pixelController.State(b)))
    {
      ghost var before := pixelController.State(redirect);
      var first := pixelController.Collection(current);
      pixelController.StateOfList(current);
      assert pixelController.State(redirect) == before;
      if first == null {
        return Err(NullReference);
      }
      var second := pixelController.Collection(redirect);
      pixelController.StateOfList(redirect);
      if second == null {
        return Err(NullReference);
      }
      r := Ok(|first.items| + |second.items| > 0);
    }
  }

  // ---- Attributes ----

  /** One attribute in the format ` {0}="{1}"`. */
  function Attribute(key: string, encoded: string): string {
    " " + key + "=\"" + encoded + "\""
  }

  /** GetAttributesString as a specification: every attribute in order, its
      value's ToString() put through the HTML attribute encoder; a null value
      makes ToString throw NullReferenceException. */
  function Rendered(entries: Entries, encode: string -> string, toString: Value -> string): (r: Result<string>)
  {
    if entries == [] then Ok("")
    else match Rendered(entries[..|entries| - 1], encode, toString)
      case Err(f) => Err(f)
      case Ok(s) =>
        var (key, value) := entries[|entries| - 1];
        if value == Null then Err(NullReference) else Ok(s + Attribute(key, encode(ConvertToString(value, toString))))
  }

  /** Rendering fails exactly when some attribute value is null; every
      rendered attribute then starts with a space, so a non-empty dictionary
      never renders as "". */
  lemma {:induction false} RenderedFails(entries: Entries, encode: string -> string, toString: Value -> string)
    ensures Rendered(entries, encode, toString).Err? <==> exists i :: 0 <= i < |entries| && entries[i].1 == Null
    ensures Rendered(entries, encode, toString).Err? ==> Rendered(entries, encode, toString).fault == NullReference
    ensures Rendered(entries, encode, toString).Ok? ==> (Rendered(entries, encode, toString).value == [] <==> entries == [])
  {
    if entries != [] {
      var init := entries[..|entries| - 1];
      RenderedFails(init, encode, toString);
      if exists i :: 0 <= i < |init| && init[i].1 == Null {
        var i :| 0 <= i < |init| && init[i].1 == Null;
        assert entries[i].1 == Null;
      }
      if exists i :: 0 <= i < |entries| && entries[i].1 == Null {
        var i :| 0 <= i < |entries| && entries[i].1 == Null;
        if i < |init| { assert init[i].1 == Null; }
      }
    }
  }

  /** A dictionary of one attribute. */
  lemma RenderedSingle(key: string, value: Value, encode: string -> string, toString: Value -> string)
    ensures Rendered([(key, value)], encode, toString)
            == if value == Null then Err(NullReference) else Ok(Attribute(key, encode(ConvertToString(value, toString))))
  {
    assert [(key, value)][..0] == [];
    var attr := Attribute(key, encode(ConvertToString(value, toString)));
    assert "" + attr == attr;
  }

  /** GetAttributesString(attributes): the StringBuilder loop. */
  method GetAttributesString(attributes: RouteValueDictionary, encode: string -> string, toString: Value -> string)
    returns (r: Result<string>)
    ensures r == Rendered(attributes.entries, encode, toString)
  {
    var entries := attributes.entries;
    var sb := "";
    var i := 0;
    while i < |entries|
      invariant 0 <= i <= |entries|
      invariant Rendered(entries[..i], encode, toString) == Ok(sb)
    {
      var (key, value) := entries[i];
      if value == Null {
        RenderedFailsOnward(entries, i + 1, encode, toString);
        assert entries[..i + 1][..i] == entries[..i];
        return Err(NullReference);
      }
      assert entries[..i + 1][..i] == entries[..i];
      sb := sb + Attribute(key, encode(ConvertToString(value, toString)));
      i := i + 1;
    }
    assert entries[..i] == entries;
    r := Ok(sb);
  }

  /** A failure in a prefix is the failure of the whole. */
  lemma {:induction false} RenderedFailsOnward(entries: Entries, i: nat, encode: string -> string, toString: Value -> string)
    requires 0 < i <= |entries| && entries[i - 1].1 == Null
    ensures Rendered(entries, encode, toString) == Err(NullReference)
  {
    RenderedFails(entries, encode, toString);
    assert entries[i - 1].1 == Null;
  }

  /** Attrs(attributes). */
  method Attrs(attributes: Entries, encode: string -> string, toString: Value -> string) returns (r: Result<string>)
    requires KeysDistinct(attributes)
    ensures r == Rendered(attributes, encode, toString)
  {
    var attrDict := new RouteValueDictionary(attributes);
    r := GetAttributesString(attrDict, encode, toString);
  }

  /** AttrsIf(condition, attributes): the attributes, or a single space. */
  method AttrsIf(condition: bool, attributes: Entries, encode: string -> string, toString: Value -> string)
    returns (r: Result<string>)
    requires KeysDistinct(attributes)
    ensures condition ==> r == Rendered(attributes, encode, toString)
    ensures !condition ==> r == Ok(" ")
  {
    if condition {
      r := Attrs(attributes, encode, toString);
    } else {
      r := Ok(" ");
    }
  }

  /** AttrsIf(condition, attributesIfTrue, attributesIfFalse). */
  method AttrsIfElse(condition: bool, attributesIfTrue: Entries, attributesIfFalse: Entries,
                     encode: string -> string, toString: Value -> string)
    returns (r: Result<string>)
    requires KeysDistinct(attributesIfTrue) && KeysDistinct(attributesIfFalse)
    ensures r == Rendered(if condition then attributesIfTrue else attributesIfFalse, encode, toString)
  {
    if condition {
      r := Attrs(attributesIfTrue, encode, toString);
    } else {
      r := Attrs(attributesIfFalse, encode, toString);
    }
  }

  /** ClassIf(condition, className): ` class="className"`, or a space. A null
      class name fails on ToString. */
  method ClassIf(condition: bool, className: Option<string>, encode: string -> string, toString: Value -> string)
    returns (r: Result<string>)
    ensures !condition ==> r == Ok(" ")
    ensures condition && className.Some? ==> r == Ok(Attribute("class", encode(className.value)))
    ensures condition && className.None? ==> r == Err(NullReference)
  {
    var value := if className.Some? then Str(className.value) else Null;
    RenderedSingle("class", value, encode, toString);
    r := AttrsIf(condition, [("class", value)], encode, toString);
  }

  /** DisabledAttrIf, CheckedAttrIf and SelectedAttrIf: ` name="name"`, or a
      space. */
  method FlagAttrIf(condition: bool, name: string, encode: string -> string, toString: Value -> string)
    returns (r: Result<string>)
    requires name == "disabled" || name == "checked" || name == "selected"
    ensures condition ==> r == Ok(Attribute(name, encode(name)))
    ensures !condition ==> r == Ok(" ")
  {
    RenderedSingle(name, Str(name), encode, toString);
    r := AttrsIf(condition, [(name, Str(name))], encode, toString);
  }

  /** StringIf(condition, text, elseText). */
  function StringIf(condition: bool, text: string, elseText: string): (r: string)
    ensures condition ==> r == text
    ensures !condition ==> r == elseText
  {
    if condition then text else elseText
  }

  /** StringIf(condition, text): the text or "". */
  function StringIfOrEmpty(condition: bool, text: string): (r: string)
    ensures r == (if condition then text else "")
  {
    StringIf(condition, text, "")
  }

}
