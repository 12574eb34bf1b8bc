# GtkKit named-child lookup in Dafny

This project models the recursive named-child lookup that the GtkKit widget
extension adds to every widget: `child(named:of:)` and its overload
`child(named:)`. Given a root widget and a name, the lookup runs a depth-first
search and returns the first widget whose name equals the target (in the model,
equal as sequences of code points), or `nil`.

The order is fixed by the code:

1. the widget itself is checked first;
2. a bin (single-child widget) that has a child returns whatever the search of
   that child returns, even `nil`, and its container view is never consulted;
3. otherwise a container scans its children left to right and returns the
   first non-`nil` result (a childless bin reaches this step, since in the
   toolkit every bin is also a container);
4. otherwise the result is `nil`.

Files:

- `wrappers.dfy` (`Wrappers`): the `Option` type standing for the optional result.
- `widget_tree.dfy` (`WidgetTree`): the `Widget` datatype, whose fields stand
  for the toolkit's name query, bin/container capability checks, bin child and
  ordered child list; and an independent reference description of the search:
  `Visited` lists the nodes the search can reach in the order it reaches them,
  and `FirstNamed` scans a list for the first matching name.
- `widget_search.dfy` (`WidgetSearch`): the lookup itself (`ChildNamedOf`, with
  the container loop as `FirstInChildren`, and the overload `ChildNamed`), and
  the lemmas about it. The central one, `SearchIsFirstVisited`, proves that the
  lookup returns exactly the first node of `Visited` whose name matches; the
  others derive soundness, completeness, leftmost-wins and bin precedence.
- `widget_examples.dfy` (`WidgetExamples`): concrete trees showing a chain of
  bins, a withheld capability, two matching children and an empty container.

## Model

| member | source | states |
|---|---|---|
| WidgetSearch.ChildNamedOf | Sources/GtkKit/Widget.swift:13-36 | any non-nil result carries a name equal, code point by code point, to the target and is a node the search can reach from the root (the root, or via bin-child and container-children edges in the order the code takes them) |
| WidgetSearch.FirstInChildren | Sources/GtkKit/Widget.swift:27-33 | a result of the container loop carries the target name and lies in the subtree of one of the scanned children |
| WidgetSearch.ChildNamed | Sources/GtkKit/Widget.swift:9-11 | the one-argument overload returns exactly what the type-tagged overload returns for the same name, and that is the first reachable node bearing the name |
| WidgetSearch.SearchIsFirstVisited | Sources/GtkKit/Widget.swift:13-36 | the lookup equals the reference: the first node, in depth-first bin-before-container left-to-right order, whose name matches |
| WidgetSearch.ChildrenSearchIsFirstVisited | Sources/GtkKit/Widget.swift:27-33 | the children loop equals the first match in the concatenated visiting orders of the children |
| WidgetSearch.RootMatchWins | Sources/GtkKit/Widget.swift:15-16 | if the root's name equals the target, the root itself is returned whatever its subtree holds |
| WidgetSearch.FoundIffNameVisited | Sources/GtkKit/Widget.swift:13-36 | a result is returned if and only if some reachable node has the target name; the result is nil if and only if none has |
| WidgetSearch.FoundIsEarliestMatch | Sources/GtkKit/Widget.swift:13-36 | a found node has the target name and no node visited before it has that name |
| WidgetSearch.BinTakesPrecedence | Sources/GtkKit/Widget.swift:18-22 | a non-matching bin with a child returns its child's result, even nil, whatever its container flag and child list hold |
| WidgetSearch.BinShortcutAgreesWithContainerView | Sources/GtkKit/Widget.swift:18-33 | for a bin whose container view lists exactly its child and nothing else, the bin shortcut and the container loop give the same answer (for bins whose container view lists further widgets, such as a frame's label, the precedence is observable) |
| WidgetSearch.FirstInChildrenFromLeftmost | Sources/GtkKit/Widget.swift:27-31 | a result of the children loop is the result of the leftmost child whose search yields anything |
| WidgetSearch.LeftmostDecidesFirstInChildren | Sources/GtkKit/Widget.swift:27-31 | the leftmost child whose search yields anything decides the loop's result |
| WidgetSearch.LeftmostChildWins | Sources/GtkKit/Widget.swift:24-33 | for a non-matching container that is not a bin with a child, the result is `found` if and only if some child yields `found` and every child before it yields nil |
| WidgetSearch.DeadEndNotFound | Sources/GtkKit/Widget.swift:18-35 | a non-matching node that is neither a bin with a child nor a container with children (a leaf, an empty container, a childless bin) returns nil |
| WidgetSearch.TypeTagIrrelevant | Sources/GtkKit/Widget.swift:13-29 | the requested result type never changes which node is found |
| WidgetExamples.BinChainReachesLeaf | Sources/GtkKit/Widget.swift:18-22 | in a chain of bins a -> b -> c, searching for c returns the leaf c |
| WidgetExamples.WithheldCapabilityHidesChild | Sources/GtkKit/Widget.swift:18-35 | when the middle node has neither capability, the matching leaf below it is not found |
| WidgetExamples.LeftmostOfThreeWins | Sources/GtkKit/Widget.swift:27-31 | of children [x, y, z] where x and z match, x is returned |
| WidgetExamples.EmptyContainerYieldsNothing | Sources/GtkKit/Widget.swift:24-35 | a non-matching container with no children returns nil |
| WidgetExamples.BinResultNotOverriddenByContainerView | Sources/GtkKit/Widget.swift:18-22 | a bin whose child does not match returns nil even if its container view lists a match |

## Left out

- `isDarkTheme` (Sources/GtkKit/Widget.swift:39-54): floating-point colour averaging over values read from the toolkit's style context, which is outside this model.
- Both `addTickCallback` overloads (Sources/GtkKit/Widget.swift:56-76): they hand closures to the toolkit's frame clock as C callbacks with manual retain/release; foreign calls and memory lifetime are not modelled.
- The `debugPrint` call (Sources/GtkKit/Widget.swift:14): console output only.
- The unchecked cast `T(retainingRaw: ptr)` (Sources/GtkKit/Widget.swift:16): the result is the found node itself; the requested type is a `TypeTag` that the search carries but never inspects.
- The raw-reference wrappers `BinRef`, `ContainerRef`, `WidgetRef` and the calls `isABin`/`isAContainer`: foreign toolkit calls, replaced by the fields of `Widget`. The datatype imposes no link between a widget's bin child and its container child list; `BinShortcutAgreesWithContainerView` assumes the list is exactly the bin child, which holds for plain bins but not for bins such as frames and expanders that also list a label widget.
- The tree is an immutable value: changes to the toolkit's tree made outside the lookup, and lifetime of the widget handles, are not modelled.
- A widget name that the toolkit reports as absent is not modelled; every widget has a string name.
- WidgetSearch.ChildNamedOf: compares names code point by code point, whereas Swift's `String ==` at Sources/GtkKit/Widget.swift:15 treats canonically equivalent strings as equal (precomposed "é" equals "e" followed by a combining acute accent); the two agree only when both names are in the same Unicode normal form. The repair of invalid UTF-8 when the toolkit's C name is turned into a Swift string is not modelled either. Every lemma that depends on a name match inherits this.
