/** The recursive named-child lookup of the widget extension: a depth-first
    search that checks a node's own name, then descends into a bin's single
    child, and otherwise scans a container's children from left to right. */
module WidgetSearch {
  import opened Wrappers
  import opened WidgetTree

  /** The widget type the caller asks for. The found node is reinterpreted
      as this type by an unchecked cast, so the tag never steers the search;
      it is carried only to state that. */
  datatype TypeTag = TypeTag(typeName: string)

  /** `child(named:of:)`: the first node, in the search's order, whose name
      equals `name` code point by code point. A bin with a child returns its child's result even
      when that result is `None`; a childless bin falls through to its
      container view. */
  function ChildNamedOf(w: Widget, name: string, ty: TypeTag): (r: Option<Widget>)
    decreases w
    ensures r.Some? ==> r.value.name == name
    ensures r.Some? ==> r.value in Visited(w)
  {
    if w.name == name then Some(w)
    else if DescendsIntoBin(w) then ChildNamedOf(w.binChild.value, name, ty)
    else if w.isContainer then FirstInChildren(w.children, name, ty)
    else None
  }

  /** The container loop: the first non-`None` search result among `cs`,
      taken from left to right. */
  function FirstInChildren(cs: seq<Widget>, name: string, ty: TypeTag): (r: Option<Widget>)
    decreases cs
    ensures r.Some? ==> r.value.name == name
    ensures r.Some? ==> r.value in VisitedAll(cs)
  {
    if cs == [] then None
    else
      match ChildNamedOf(cs[0], name, ty)
      case Some(found) => Some(found)
      case None => FirstInChildren(cs[1..], name, ty)
  }

  /** `child(named:)`: the overload whose result type is inferred from the
      call site forwards to `child(named:of:)` with that type. */
  function ChildNamed(w: Widget, name: string, inferred: TypeTag): (r: Option<Widget>)
    ensures r == ChildNamedOf(w, name, inferred)
    ensures r == FirstNamed(Visited(w), name)
  {
    SearchIsFirstVisited(w, name, inferred);
    ChildNamedOf(w, name, inferred)
  }

  /** The search returns exactly the first node, in visiting order, whose
      name matches: the search agrees with the reference scan of `Visited`. */
  lemma {:induction false} SearchIsFirstVisited(w: Widget, name: string, ty: TypeTag)
    decreases w
    ensures ChildNamedOf(w, name, ty) == FirstNamed(Visited(w), name)
  {
    var rest := if DescendsIntoBin(w) then Visited(w.binChild.value)
                else if w.isContainer then VisitedAll(w.children)
                else [];
    assert Visited(w) == [w] + rest;
    FirstNamedAppend([w], rest, name);
    if w.name != name {
      if DescendsIntoBin(w) {
        SearchIsFirstVisited(w.binChild.value, name, ty);
      } else if w.isContainer {
        ChildrenSearchIsFirstVisited(w.children, name, ty);
      }
    }
  }

  /** The container loop agrees with the reference scan of `VisitedAll`. */
  lemma {:induction false} ChildrenSearchIsFirstVisited(cs: seq<Widget>, name: string, ty: TypeTag)
    decreases cs
    ensures FirstInChildren(cs, name, ty) == FirstNamed(VisitedAll(cs), name)
  {
    if cs != [] {
      SearchIsFirstVisited(cs[0], name, ty);
      ChildrenSearchIsFirstVisited(cs[1..], name, ty);
      FirstNamedAppend(Visited(cs[0]), VisitedAll(cs[1..]), name);
    }
  }

  /** If the root itself carries the name, the root is the result, whatever
      lies below it. */
  lemma RootMatchWins(w: Widget, name: string, ty: TypeTag)
    requires w.name == name
    ensures ChildNamedOf(w, name, ty) == Some(w)
  {
  }

  /** A node is found exactly when some node the search can visit carries the
      name; otherwise the result is `None`. */
  lemma {:induction false} FoundIffNameVisited(w: Widget, name: string, ty: TypeTag)
    ensures ChildNamedOf(w, name, ty).Some? <==> exists n :: n in Visited(w) && n.name == name
    ensures ChildNamedOf(w, name, ty).None? <==> forall n :: n in Visited(w) ==> n.name != name
  {
    SearchIsFirstVisited(w, name, ty);
    var s := Visited(w);
    if exists n :: n in s && n.name == name {
      var n :| n in s && n.name == name;
      var i :| 0 <= i < |s| && s[i] == n;
      assert s[i].name == name;
    }
  }

  /** A found node is the earliest match in the search's depth-first,
      bin-before-container, left-to-right order. */
  lemma {:induction false} FoundIsEarliestMatch(w: Widget, name: string, ty: TypeTag, found: Widget)
    requires ChildNamedOf(w, name, ty) == Some(found)
    ensures found.name == name
    ensures exists k :: 0 <= k < |Visited(w)| && Visited(w)[k] == found &&
              forall j :: 0 <= j < k ==> Visited(w)[j].name != name
  {
    SearchIsFirstVisited(w, name, ty);
  }

  /** A bin that has a child and does not match returns its child's result,
      even `None`; its container view is never consulted, whatever it holds. */
  lemma BinTakesPrecedence(w: Widget, name: string, ty: TypeTag, isContainer: bool, children: seq<Widget>)
    requires w.name != name && DescendsIntoBin(w)
    ensures ChildNamedOf(w.(isContainer := isContainer, children := children), name, ty) ==
            ChildNamedOf(w.binChild.value, name, ty)
  {
  }

  /** Child `i` is the leftmost child of `cs` whose search yields anything,
      and what it yields is `found`. */
  ghost predicate LeftmostYieldAt(cs: seq<Widget>, name: string, ty: TypeTag, found: Widget, i: int) {
    && 0 <= i < |cs|
    && ChildNamedOf(cs[i], name, ty) == Some(found)
    && forall j :: 0 <= j < i ==> ChildNamedOf(cs[j], name, ty).None?
  }

  /** A result of the container loop comes from the leftmost child whose
      search yields anything. */
  lemma {:induction false} FirstInChildrenFromLeftmost(cs: seq<Widget>, name: string, ty: TypeTag, found: Widget)
    requires FirstInChildren(cs, name, ty) == Some(found)
    decreases cs
    ensures exists i :: LeftmostYieldAt(cs, name, ty, found, i)
  {
    if ChildNamedOf(cs[0], name, ty).Some? {
      assert LeftmostYieldAt(cs, name, ty, found, 0);
    } else {
      FirstInChildrenFromLeftmost(cs[1..], name, ty, found);
      var i :| LeftmostYieldAt(cs[1..], name, ty, found, i);
      assert cs[1..][i] == cs[i + 1];
      assert forall j :: 1 <= j < i + 1 ==> cs[j] == cs[1..][j - 1];
      assert LeftmostYieldAt(cs, name, ty, found, i + 1);
    }
  }

  /** The leftmost child whose search yields anything decides the result of
      the container loop. */
  lemma {:induction false} LeftmostDecidesFirstInChildren(cs: seq<Widget>, name: string, ty: TypeTag, found: Widget, i: int)
    requires LeftmostYieldAt(cs, name, ty, found, i)
    decreases cs
    ensures FirstInChildren(cs, name, ty) == Some(found)
  {
    if i > 0 {
      assert cs[1..][i - 1] == cs[i];
      assert forall j :: 0 <= j < i - 1 ==> cs[1..][j] == cs[j + 1];
      assert LeftmostYieldAt(cs[1..], name, ty, found, i - 1);
      LeftmostDecidesFirstInChildren(cs[1..], name, ty, found, i - 1);
    }
  }

  /** For a bin whose container view lists exactly its child and nothing
      else, the bin shortcut and the container loop give the same answer.
      Bins whose container view also lists other widgets (a frame's label,
      say) do observe the precedence; see `BinTakesPrecedence`. */
  lemma BinShortcutAgreesWithContainerView(w: Widget, name: string, ty: TypeTag)
    requires w.name != name && DescendsIntoBin(w)
    requires w.isContainer && w.children == [w.binChild.value]
    ensures ChildNamedOf(w, name, ty) == FirstInChildren(w.children, name, ty)
  {
  }

  /** For a container that does not match and is not a bin with a child,
      the leftmost child whose subtree yields a result decides the answer. */
  lemma {:induction false} LeftmostChildWins(w: Widget, name: string, ty: TypeTag, found: Widget)
    requires w.name != name && ScansChildren(w)
    ensures ChildNamedOf(w, name, ty) == Some(found) <==>
            exists i :: LeftmostYieldAt(w.children, name, ty, found, i)
  {
    assert ChildNamedOf(w, name, ty) == FirstInChildren(w.children, name, ty);
    if ChildNamedOf(w, name, ty) == Some(found) {
      FirstInChildrenFromLeftmost(w.children, name, ty, found);
    }
    if exists i :: LeftmostYieldAt(w.children, name, ty, found, i) {
      var i :| LeftmostYieldAt(w.children, name, ty, found, i);
      LeftmostDecidesFirstInChildren(w.children, name, ty, found, i);
    }
  }

  /** A node that does not match and has nowhere to descend (a leaf, an
      empty container, or a childless bin whose container view is empty)
      yields `None`. */
  lemma DeadEndNotFound(w: Widget, name: string, ty: TypeTag)
    requires w.name != name && !DescendsIntoBin(w)
    requires !w.isContainer || w.children == []
    ensures ChildNamedOf(w, name, ty) == None
  {
  }

  /** The requested result type never changes which node is found. */
  lemma {:induction false} TypeTagIrrelevant(w: Widget, name: string, t1: TypeTag, t2: TypeTag)
    ensures ChildNamedOf(w, name, t1) == ChildNamedOf(w, name, t2)
  {
    SearchIsFirstVisited(w, name, t1);
    SearchIsFirstVisited(w, name, t2);
  }
}
