/** Small concrete trees showing the search order on named shapes: a chain
    of bins, a withheld capability, a container with two matching children
    and an empty container. */
module WidgetExamples {
  import opened Wrappers
  import opened WidgetTree
  import opened WidgetSearch

  /** A widget with neither capability. */
  function Leaf(name: string): Widget {
    Widget(name, false, None, false, [])
  }

  /** A plain bin holding `child`; it is also a container listing that one
      child and nothing else. */
  function BinOf(name: string, child: Widget): Widget {
    Widget(name, true, Some(child), true, [child])
  }

  /** A multi-child container that is not a bin. */
  function BoxOf(name: string, children: seq<Widget>): Widget {
    Widget(name, false, None, true, children)
  }

  const AnyType := TypeTag("Widget")

  /** In the chain a -> b -> c of bins, searching for "c" reaches the leaf. */
  lemma BinChainReachesLeaf()
    ensures ChildNamedOf(BinOf("a", BinOf("b", Leaf("c"))), "c", AnyType) == Some(Leaf("c"))
  {
  }

  /** When the middle node holds the child but has no bin or container
      capability, the search cannot reach the matching leaf. */
  lemma WithheldCapabilityHidesChild()
    ensures ChildNamedOf(BinOf("a", Widget("b", false, Some(Leaf("c")), false, [Leaf("c")])), "c", AnyType) == None
  {
  }

  /** Of the children [x, y, z], both x and z carry the name; x is returned. */
  lemma LeftmostOfThreeWins()
    ensures ChildNamedOf(BoxOf("p", [Leaf("t"), Leaf("y"), BoxOf("t", [])]), "t", AnyType) == Some(Leaf("t"))
  {
  }

  /** An empty container that does not match yields nothing. */
  lemma EmptyContainerYieldsNothing()
    ensures ChildNamedOf(BoxOf("p", []), "t", AnyType) == None
  {
  }

  /** A bin whose child does not match returns `None` even though its
      container view lists a matching widget. */
  lemma BinResultNotOverriddenByContainerView()
    ensures ChildNamedOf(Widget("a", true, Some(Leaf("b")), true, [Leaf("t")]), "t", AnyType) == None
  {
  }
}
