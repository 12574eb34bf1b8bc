/** The widget tree as the named-child search sees it, and an independent
    reference description of the search: the nodes it visits, in the order
    it visits them, scanned left to right for the first matching name. */
module WidgetTree {
  import opened Wrappers

  /** One widget of the toolkit's tree. The toolkit's capability checks
      ("is a bin", "is a container") become the flags `isBin` and
      `isContainer`; a bin's optional single child is `binChild`, and a
      container's ordered child list is `children` (empty when the toolkit
      reports no children). In the toolkit every bin is also a container,
      so both views may be present on the same node. */
  datatype Widget = Widget(
    name: string,
    isBin: bool,
    binChild: Option<Widget>,
    isContainer: bool,
    children: seq<Widget>)

  /** The search descends into the bin child: the node is a bin and has a
      child. Such a node never has its container view consulted. */
  predicate DescendsIntoBin(w: Widget) {
    w.isBin && w.binChild.Some?
  }

  /** The search scans the container's child list: the node is a container
      and not a bin with a child (a childless bin falls through to here). */
  predicate ScansChildren(w: Widget) {
    !DescendsIntoBin(w) && w.isContainer
  }

  /** The nodes the search can visit from `w`, in depth-first pre-order:
      `w` itself, then either the bin child's nodes or, failing that, the
      nodes of each container child from left to right. */
  function Visited(w: Widget): (r: seq<Widget>)
    decreases w
    ensures |r| >= 1 && r[0] == w
  {
    [w] + (if DescendsIntoBin(w) then Visited(w.binChild.value)
           else if w.isContainer then VisitedAll(w.children)
           else [])
  }

  /** The concatenation of `Visited` over a child list, left to right. */
  function VisitedAll(cs: seq<Widget>): seq<Widget>
    decreases cs
  {
    if cs == [] then [] else Visited(cs[0]) + VisitedAll(cs[1..])
  }

  /** The first widget of `s` whose name equals `name`, if any. */
  function FirstNamed(s: seq<Widget>, name: string): (r: Option<Widget>)
    ensures r.None? <==> forall i :: 0 <= i < |s| ==> s[i].name != name
    ensures r.Some? ==> exists k :: 0 <= k < |s| && s[k] == r.value && r.value.name == name &&
                          forall j :: 0 <= j < k ==> s[j].name != name
  {
    if s == [] then None
    else if s[0].name == name then Some(s[0])
    else
      var rest := FirstNamed(s[1..], name);
      assert forall i :: 1 <= i < |s| ==> s[i] == s[1..][i - 1];
      rest
  }

  /** Scanning a concatenation finds the first match of the left part, or
      failing that the first match of the right part. */
  lemma {:induction false} FirstNamedAppend(a: seq<Widget>, b: seq<Widget>, name: string)
    ensures FirstNamed(a + b, name) ==
            if FirstNamed(a, name).Some? then FirstNamed(a, name) else FirstNamed(b, name)
  {
    if a == [] {
      assert a + b == b;
    } else {
      assert (a + b)[0] == a[0];
      assert (a + b)[1..] == a[1..] + b;
      FirstNamedAppend(a[1..], b, name);
    }
  }
}
