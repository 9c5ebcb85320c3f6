/** What the walk over a flat directory finds, and when that is the tree it was flattened from. */
module DirectoryRebuild {
  import opened Bytes
  import opened Wrappers
  import opened AreaTree
  import opened DirectoryWalk

  // ------------------------------------------------------------- each index once

  /** The entries below and among the nodes in pre-order. */
  function Flatten(nodes: seq<Node>): seq<DirectoryEntry>
    decreases nodes
  {
    if nodes == [] then []
    else
      (match nodes[0]
       case AreaNode(code, end, children) => [AreaEntry(code, end)] + Flatten(children)
       case ServiceNode(code) => [ServiceEntry(code)])
      + Flatten(nodes[1..])
  }

  function CodesOf(entries: seq<DirectoryEntry>): seq<u16> {
    if entries == [] then []
    else [match entries[0] case AreaEntry(code, _) => code case ServiceEntry(code) => code] + CodesOf(entries[1..])
  }

  lemma {:induction false} CodesAppend(a: seq<DirectoryEntry>, b: seq<DirectoryEntry>)
    ensures CodesOf(a + b) == CodesOf(a) + CodesOf(b)
    decreases |a|
  {
    if a == [] {
      assert a + b == b;
    } else {
      assert (a + b)[0] == a[0] && (a + b)[1..] == a[1..] + b;
      CodesAppend(a[1..], b);
    }
  }

  /** The index reached by `k` steps, at most the last. */
  function Step(index: u16, k: nat): u16 {
    if index as int + k <= LAST_INDEX as int then index + k else LAST_INDEX
  }

  /**
   `entries` are what the card answers from `index` on, one index after the other until
   `next`; only the entry at the last index may be there more than once.
   */
  ghost predicate Reads(card: Card, index: u16, next: u16, entries: seq<DirectoryEntry>) {
    && index <= next && |entries| >= next - index
    && (forall k | 0 <= k < |entries| :: card(Step(index, k)) == Some(entries[k]))
    && (|entries| > next - index ==> next == LAST_INDEX && card(LAST_INDEX).Some?)
  }

  lemma ReadsAppend(card: Card, index: u16, middle: u16, next: u16, a: seq<DirectoryEntry>, b: seq<DirectoryEntry>)
    requires Reads(card, index, middle, a) && Reads(card, middle, next, b)
    ensures Reads(card, index, next, a + b)
  {
    forall k | 0 <= k < |a + b|
      ensures card(Step(index, k)) == Some((a + b)[k])
    {
      if k < |a| {
        assert (a + b)[k] == a[k];
      } else {
        assert (a + b)[k] == b[k - |a|];
        assert Step(index, k) == Step(middle, k - |a|);
      }
    }
  }

  lemma ReadsOne(card: Card, index: u16, entry: DirectoryEntry)
    requires card(index) == Some(entry)
    ensures index < LAST_INDEX ==> Reads(card, index, index + 1, [entry])
    ensures index == LAST_INDEX ==> Reads(card, index, index, [entry])
  {
  }

  lemma FlattenFirst(node: Node, nodes: seq<Node>)
    ensures Flatten([node] + nodes)
            == (match node
                case AreaNode(code, end, children) => [AreaEntry(code, end)] + Flatten(children)
                case ServiceNode(code) => [ServiceEntry(code)])
               + Flatten(nodes)
  {
    assert ([node] + nodes)[1..] == nodes;
  }

  /** The walk's nodes are the entries it passed, and its codes theirs. */
  ghost predicate Faithful(card: Card, index: u16, walk: Walk) {
    Reads(card, index, walk.next, Flatten(walk.nodes)) && walk.codes == CodesOf(Flatten(walk.nodes))
  }

  lemma AreaIsFaithful(card: Card, index: u16, code: u16, end: u16, below: Walk, rest: Walk, warnings: seq<Warning>)
    requires index < LAST_INDEX && card(index) == Some(AreaEntry(code, end))
    requires Faithful(card, index + 1, below) && Faithful(card, below.next, rest)
    ensures Faithful(card, index, rest.After(AreaNode(code, end, below.nodes), [code] + below.codes, warnings))
  {
    var area := [AreaEntry(code, end)] + Flatten(below.nodes);
    ReadsOne(card, index, AreaEntry(code, end));
    ReadsAppend(card, index, index + 1, below.next, [AreaEntry(code, end)], Flatten(below.nodes));
    ReadsAppend(card, index, below.next, rest.next, area, Flatten(rest.nodes));
    FlattenFirst(AreaNode(code, end, below.nodes), rest.nodes);
    CodesAppend([AreaEntry(code, end)], Flatten(below.nodes));
    CodesAppend(area, Flatten(rest.nodes));
  }

  lemma ServiceIsFaithful(card: Card, index: u16, service: u16, rest: Walk, warnings: seq<Warning>)
    requires card(index) == Some(ServiceEntry(service))
    requires if index == LAST_INDEX then rest == Walk([], index, [], []) else Faithful(card, index + 1, rest)
    ensures Faithful(card, index, rest.After(ServiceNode(service), [service], warnings))
  {
    ReadsOne(card, index, ServiceEntry(service));
    FlattenFirst(ServiceNode(service), rest.nodes);
    CodesAppend([ServiceEntry(service)], Flatten(rest.nodes));
    if index < LAST_INDEX {
      ReadsAppend(card, index, index + 1, rest.next, [ServiceEntry(service)], Flatten(rest.nodes));
    }
  }

  /** For every card, an area's walk uses every index it passes once, but for the last, and reports its code. */
  lemma {:induction false} AreaWalkReads(card: Card, code: u16, end: u16, index: u16)
    ensures Faithful(card, index, WalkArea(card, code, end, index))
    decreases 0x1_0000 - index
  {
    match card(index)
    case None =>
    case Some(ServiceEntry(service)) =>
      if Inside(ServiceEntry(service), code, end) {
        if index == LAST_INDEX {
          ServiceIsFaithful(card, index, service, Walk([], index, [], []), [OverflowTraversing(code)]);
        } else {
          AreaWalkReads(card, code, end, index + 1);
          ServiceIsFaithful(card, index, service, WalkArea(card, code, end, index + 1), []);
        }
      }
    case Some(AreaEntry(child, childEnd)) =>
      if child <= childEnd && Inside(AreaEntry(child, childEnd), code, end) && index < LAST_INDEX {
        var below := WalkArea(card, child, childEnd, index + 1);
        AreaWalkReads(card, child, childEnd, index + 1);
        AreaWalkReads(card, code, end, below.next);
        AreaIsFaithful(card, index, child, childEnd, below, WalkArea(card, code, end, below.next), below.warnings);
      }
  }

  /** For every card, so does the walk over all of it, which stops at the first index without an entry. */
  lemma {:induction false} SystemWalkReads(card: Card, index: u16)
    ensures Faithful(card, index, WalkSystem(card, index))
    ensures WalkSystem(card, index).next < LAST_INDEX ==> card(WalkSystem(card, index).next) == None
    decreases 0x1_0000 - index
  {
    match card(index)
    case None =>
    case Some(AreaEntry(code, end)) =>
      if index < LAST_INDEX {
        var below := WalkArea(card, code, end, index + 1);
        AreaWalkReads(card, code, end, index + 1);
        SystemWalkReads(card, below.next);
        AreaIsFaithful(card, index, code, end, below, WalkSystem(card, below.next), below.warnings);
      }
    case Some(ServiceEntry(service)) =>
      if index == LAST_INDEX {
        var warnings := [NoParentArea(service, index), OverflowAtSystemLevel];
        ServiceIsFaithful(card, index, service, Walk([], index, [], []), warnings);
      } else {
        SystemWalkReads(card, index + 1);
        ServiceIsFaithful(card, index, service, WalkSystem(card, index + 1), [NoParentArea(service, index)]);
      }
  }

  /** With no entry at the last index, the walk lists the directory up to its first gap, each entry once. */
  lemma WalkListsDirectory(card: Card)
    requires card(LAST_INDEX) == None
    ensures var walk := WalkSystem(card, 0);
            && |Flatten(walk.nodes)| == walk.next as int && card(walk.next) == None
            && (forall k: u16 | k < walk.next :: card(k) == Some(Flatten(walk.nodes)[k]))
  {
    SystemWalkReads(card, 0);
    var walk := WalkSystem(card, 0);
    forall k: u16 | k < walk.next
      ensures card(k) == Some(Flatten(walk.nodes)[k])
    {
      assert Step(0, k) == k;
    }
  }

  // ------------------------------------------------------------------ containment

  /** Everything below an area, at any depth, lies in its range. */
  ghost predicate Contained(nodes: seq<Node>)
    decreases nodes
  {
    nodes == [] ||
    (&& (match nodes[0]
         case AreaNode(code, end, children) =>
           (forall e | e in Flatten(children) :: Inside(e, code, end)) && Contained(children)
         case ServiceNode(_) => true)
     && Contained(nodes[1..]))
  }

  lemma ContainedFirst(node: Node, nodes: seq<Node>)
    requires Contained(nodes)
    requires node.AreaNode? ==>
               Contained(node.children) && forall e | e in Flatten(node.children) :: Inside(e, node.code, node.end)
    ensures Contained([node] + nodes)
  {
    assert ([node] + nodes)[1..] == nodes;
  }

  /** For every card, whatever an area's walk finds lies in the ranges of all areas around it. */
  lemma {:induction false} AreaWalkIsContained(card: Card, code: u16, end: u16, index: u16)
    ensures Contained(WalkArea(card, code, end, index).nodes)
    ensures forall e | e in Flatten(WalkArea(card, code, end, index).nodes) :: Inside(e, code, end)
    decreases 0x1_0000 - index
  {
    match card(index)
    case None =>
    case Some(ServiceEntry(service)) =>
      if Inside(ServiceEntry(service), code, end) {
        var rest := if index == LAST_INDEX then [] else WalkArea(card, code, end, index + 1).nodes;
        if index < LAST_INDEX {
          AreaWalkIsContained(card, code, end, index + 1);
        }
        ContainedFirst(ServiceNode(service), rest);
        FlattenFirst(ServiceNode(service), rest);
      }
    case Some(AreaEntry(child, childEnd)) =>
      if child <= childEnd && Inside(AreaEntry(child, childEnd), code, end) && index < LAST_INDEX {
        var below := WalkArea(card, child, childEnd, index + 1);
        var rest := WalkArea(card, code, end, below.next);
        AreaWalkIsContained(card, child, childEnd, index + 1);
        AreaWalkIsContained(card, code, end, below.next);
        ContainedFirst(AreaNode(child, childEnd, below.nodes), rest.nodes);
        FlattenFirst(AreaNode(child, childEnd, below.nodes), rest.nodes);
      }
  }

  lemma {:induction false} SystemWalkIsContained(card: Card, index: u16)
    ensures Contained(WalkSystem(card, index).nodes)
    decreases 0x1_0000 - index
  {
    match card(index)
    case None =>
    case Some(AreaEntry(code, end)) =>
      if index < LAST_INDEX {
        var below := WalkArea(card, code, end, index + 1);
        AreaWalkIsContained(card, code, end, index + 1);
        SystemWalkIsContained(card, below.next);
        ContainedFirst(AreaNode(code, end, below.nodes), WalkSystem(card, below.next).nodes);
      }
    case Some(ServiceEntry(service)) =>
      var rest := if index == LAST_INDEX then [] else WalkSystem(card, index + 1).nodes;
      if index < LAST_INDEX {
        SystemWalkIsContained(card, index + 1);
      }
      ContainedFirst(ServiceNode(service), rest);
  }

  // ------------------------------------------------------------------- separation

  function EntryOf(node: Node): DirectoryEntry {
    match node
    case AreaNode(code, end, _) => AreaEntry(code, end)
    case ServiceNode(code) => ServiceEntry(code)
  }

  /** No area would take the sibling right behind it for its own, at any depth. */
  ghost predicate Separated(nodes: seq<Node>)
    decreases nodes
  {
    nodes == [] ||
    (&& (match nodes[0]
         case AreaNode(code, end, children) =>
           Separated(children) && (|nodes| > 1 ==> !Captures(code, end, EntryOf(nodes[1])))
         case ServiceNode(_) => true)
     && Separated(nodes[1..]))
  }

  lemma SeparatedFirst(node: Node, nodes: seq<Node>)
    requires Separated(nodes)
    requires node.AreaNode? ==>
               && Separated(node.children)
               && (nodes != [] ==> !Captures(node.code, node.end, EntryOf(nodes[0])))
    ensures Separated([node] + nodes)
  {
    assert ([node] + nodes)[1..] == nodes;
  }

  ghost predicate EndsBefore(card: Card, code: u16, end: u16, index: u16) {
    card(index) == None || !Captures(code, end, card(index).value)
  }

  /** What an area's walk finds is separated, and what follows it is not the area's. */
  lemma {:induction false} AreaWalkIsSeparated(card: Card, code: u16, end: u16, index: u16)
    requires card(LAST_INDEX) == None
    ensures var walk := WalkArea(card, code, end, index);
            && Separated(walk.nodes) && EndsBefore(card, code, end, walk.next)
            && (walk.nodes != [] ==> card(index) == Some(EntryOf(walk.nodes[0])))
    decreases 0x1_0000 - index
  {
    match card(index)
    case None =>
    case Some(ServiceEntry(service)) =>
      if Inside(ServiceEntry(service), code, end) {
        AreaWalkIsSeparated(card, code, end, index + 1);
        SeparatedFirst(ServiceNode(service), WalkArea(card, code, end, index + 1).nodes);
      }
    case Some(AreaEntry(child, childEnd)) =>
      if child <= childEnd && Inside(AreaEntry(child, childEnd), code, end) {
        var below := WalkArea(card, child, childEnd, index + 1);
        AreaWalkIsSeparated(card, child, childEnd, index + 1);
        AreaWalkIsSeparated(card, code, end, below.next);
        SeparatedFirst(AreaNode(child, childEnd, below.nodes), WalkArea(card, code, end, below.next).nodes);
      }
  }

  lemma {:induction false} SystemWalkIsSeparated(card: Card, index: u16)
    requires card(LAST_INDEX) == None
    ensures var walk := WalkSystem(card, index);
            Separated(walk.nodes) && (walk.nodes != [] ==> card(index) == Some(EntryOf(walk.nodes[0])))
    decreases 0x1_0000 - index
  {
    match card(index)
    case None =>
    case Some(AreaEntry(code, end)) =>
      var below := WalkArea(card, code, end, index + 1);
      AreaWalkIsSeparated(card, code, end, index + 1);
      SystemWalkIsSeparated(card, below.next);
      SeparatedFirst(AreaNode(code, end, below.nodes), WalkSystem(card, below.next).nodes);
    case Some(ServiceEntry(service)) =>
      SystemWalkIsSeparated(card, index + 1);
      SeparatedFirst(ServiceNode(service), WalkSystem(card, index + 1).nodes);
  }

  // ------------------------------------------------------------------- rebuilding

  /** The nesting of a stored tree. */
  function Shape(area: Area): Node
    decreases area, 1
  {
    AreaNode(area.code, area.end, Shapes(area.children))
  }

  function Shapes(children: seq<Child>): (nodes: seq<Node>)
    ensures |nodes| == |children|
    decreases children, 0
  {
    if children == [] then []
    else
      [match children[0]
       case SubArea(area) => assert area < children[0]; Shape(area)
       case Leaf(service) => ServiceNode(service.code)]
      + Shapes(children[1..])
  }

  /** The card that answers each index with the entry of the list at it. */
  function CardOf(entries: seq<DirectoryEntry>): Card {
    (index: u16) => if index < |entries| then Some(entries[index]) else None
  }

  ghost predicate Agrees(card: Card, index: u16, entries: seq<DirectoryEntry>) {
    && index + |entries| <= LAST_INDEX as int
    && forall k | 0 <= k < |entries| :: card(index + k) == Some(entries[k])
  }

  lemma AgreesParts(card: Card, index: u16, a: seq<DirectoryEntry>, b: seq<DirectoryEntry>)
    requires Agrees(card, index, a + b)
    ensures Agrees(card, index, a) && Agrees(card, index + |a|, b)
  {
    forall k | 0 <= k < |a|
      ensures card(index + k) == Some(a[k])
    {
      assert (a + b)[k] == a[k];
    }
    forall k | 0 <= k < |b|
      ensures card(index + |a| + k) == Some(b[k])
    {
      assert (a + b)[|a| + k] == b[k];
    }
  }

  lemma AgreesFirst(card: Card, index: u16, entry: DirectoryEntry, entries: seq<DirectoryEntry>)
    requires Agrees(card, index, [entry] + entries)
    ensures index < LAST_INDEX && card(index) == Some(entry) && Agrees(card, index + 1, entries)
  {
    AgreesParts(card, index, [entry], entries);
    assert card(index + 0) == Some([entry][0]);
  }

  /** An area ends here, and without a warning. */
  ghost predicate Stops(card: Card, index: u16, code: u16, end: u16) {
    match card(index)
    case None => true
    case Some(ServiceEntry(service)) => !Captures(code, end, ServiceEntry(service))
    case Some(AreaEntry(child, childEnd)) => child <= childEnd && !Captures(code, end, AreaEntry(child, childEnd))
  }

  /** The entry of a well-formed child opens its part of the directory. */
  lemma FirstEntry(children: seq<Child>, code: u16, end: u16)
    requires children != [] && WellFormedChildren(children, code, end)
    ensures var first := EntryOf(Shapes(children)[0]);
            && DirectoryOf(children) != [] && DirectoryOf(children)[0] == first
            && (first.AreaEntry? ==> first.areaCode <= first.end)
  {
  }

  /** The walk of an area finds exactly these nodes, with the codes of their entries. */
  ghost predicate Finds(card: Card, code: u16, end: u16, index: u16, nodes: seq<Node>, entries: seq<DirectoryEntry>) {
    && index + |entries| <= LAST_INDEX as int
    && WalkArea(card, code, end, index) == Walk(nodes, index + |entries|, CodesOf(entries), [])
  }

  lemma FindsService(card: Card, code: u16, end: u16, index: u16, service: u16,
                     nodes: seq<Node>, entries: seq<DirectoryEntry>)
    requires index < LAST_INDEX && card(index) == Some(ServiceEntry(service))
    requires Inside(ServiceEntry(service), code, end)
    requires Finds(card, code, end, index + 1, nodes, entries)
    ensures Finds(card, code, end, index, [ServiceNode(service)] + nodes, [ServiceEntry(service)] + entries)
  {
    CodesAppend([ServiceEntry(service)], entries);
    var none: seq<Warning> := [];
    assert none + none == none;
  }

  lemma CodesFirst(entry: DirectoryEntry, a: seq<DirectoryEntry>, b: seq<DirectoryEntry>)
    requires entry.AreaEntry?
    ensures CodesOf([entry] + (a + b)) == [entry.areaCode] + CodesOf(a) + CodesOf(b)
  {
    CodesAppend(a, b);
    assert ([entry] + (a + b))[1..] == a + b;
    assert [entry.areaCode] + (CodesOf(a) + CodesOf(b)) == [entry.areaCode] + CodesOf(a) + CodesOf(b);
  }

  lemma WalkIntoArea(card: Card, code: u16, end: u16, index: u16, child: u16, childEnd: u16)
    requires index < LAST_INDEX && card(index) == Some(AreaEntry(child, childEnd))
    requires child <= childEnd && Inside(AreaEntry(child, childEnd), code, end)
    ensures var below := WalkArea(card, child, childEnd, index + 1);
            WalkArea(card, code, end, index)
            == WalkArea(card, code, end, below.next)
               .After(AreaNode(child, childEnd, below.nodes), [child] + below.codes, below.warnings)
  {
  }

  lemma FindsArea(card: Card, code: u16, end: u16, index: u16, area: Node,
                  inner: seq<DirectoryEntry>, nodes: seq<Node>, entries: seq<DirectoryEntry>)
    requires area.AreaNode? && area.code <= area.end && Inside(EntryOf(area), code, end)
    requires index < LAST_INDEX && card(index) == Some(EntryOf(area))
    requires Finds(card, area.code, area.end, index + 1, area.children, inner)
    requires Finds(card, code, end, index + 1 + |inner|, nodes, entries)
    ensures Finds(card, code, end, index, [area] + nodes, [EntryOf(area)] + (inner + entries))
  {
    WalkIntoArea(card, code, end, index, area.code, area.end);
    CodesFirst(EntryOf(area), inner, entries);
    hide WalkArea, CodesOf;
    var none: seq<Warning> := [];
    assert none + none == none;
  }

  lemma StopsInside(card: Card, index: u16, code: u16, end: u16, inner: u16, innerEnd: u16)
    requires Stops(card, index, code, end) && code <= inner && innerEnd <= end
    ensures Stops(card, index, inner, innerEnd)
  {
  }

  /** Where a child area's entries end, its walk stops. */
  lemma ChildStops(card: Card, area: Area, rest: seq<Child>, code: u16, end: u16, index: u16)
    requires WellFormedChildren(rest, code, end) && code <= area.code && area.end <= end
    requires Agrees(card, index, DirectoryOf(rest)) && Stops(card, index + |DirectoryOf(rest)|, code, end)
    requires rest != [] ==> !Captures(area.code, area.end, EntryOf(Shapes(rest)[0]))
    ensures Stops(card, index, area.code, area.end)
  {
    if rest != [] {
      FirstEntry(rest, code, end);
      assert card(index + 0) == Some(DirectoryOf(rest)[0]);
    } else {
      StopsInside(card, index, code, end, area.code, area.end);
    }
  }

  lemma SplitShapes(child: Child, rest: seq<Child>)
    ensures var first := match child { case SubArea(area) => Shape(area) case Leaf(s) => ServiceNode(s.code) };
            && Shapes([child] + rest) == [first] + Shapes(rest)
            && (Separated(Shapes([child] + rest)) ==>
                  && Separated(Shapes(rest))
                  && (child.SubArea? ==>
                        && Separated(first.children)
                        && (rest != [] ==> !Captures(first.code, first.end, EntryOf(Shapes(rest)[0])))))
  {
    var all := [child] + rest;
    assert all[0] == child && all[1..] == rest;
    assert Shapes(all)[1..] == Shapes(rest);
  }

  /** A well-formed separated list of children that opens with an area, taken apart. */
  lemma SplitArea(area: Area, rest: seq<Child>, code: u16, end: u16)
    requires var all := [SubArea(area)] + rest; WellFormedChildren(all, code, end) && Separated(Shapes(all))
    ensures code <= area.code <= area.end <= end
    ensures WellFormedChildren(area.children, area.code, area.end) && Separated(Shapes(area.children))
    ensures WellFormedChildren(rest, code, end) && Separated(Shapes(rest))
    ensures rest != [] ==> !Captures(area.code, area.end, EntryOf(Shapes(rest)[0]))
    ensures Shapes([SubArea(area)] + rest) == [Shape(area)] + Shapes(rest)
    ensures DirectoryOf([SubArea(area)] + rest)
            == [AreaEntry(area.code, area.end)] + (DirectoryOf(area.children) + DirectoryOf(rest))
  {
    hide *;
    SplitShapes(SubArea(area), rest);
    SplitTree(area, rest, code, end);
  }

  lemma SplitTree(area: Area, rest: seq<Child>, code: u16, end: u16)
    requires WellFormedChildren([SubArea(area)] + rest, code, end)
    ensures code <= area.code <= area.end <= end
    ensures WellFormedChildren(area.children, area.code, area.end) && WellFormedChildren(rest, code, end)
    ensures DirectoryOf([SubArea(area)] + rest)
            == [AreaEntry(area.code, area.end)] + (DirectoryOf(area.children) + DirectoryOf(rest))
    ensures Shape(area).children == Shapes(area.children) && EntryOf(Shape(area)) == AreaEntry(area.code, area.end)
    ensures Shape(area) == AreaNode(area.code, area.end, Shapes(area.children))
    ensures |Directory(area)| == 1 + |DirectoryOf(area.children)|
  {
    hide *;
    SplitWellFormed(area, rest, code, end);
    SplitDirectory(area, rest);
    AreaShape(area);
  }

  lemma SplitWellFormed(area: Area, rest: seq<Child>, code: u16, end: u16)
    requires WellFormedChildren([SubArea(area)] + rest, code, end)
    ensures code <= area.code <= area.end <= end
    ensures WellFormedChildren(area.children, area.code, area.end) && WellFormedChildren(rest, code, end)
  {
    var all := [SubArea(area)] + rest;
    assert all[0] == SubArea(area) && all[1..] == rest;
  }

  lemma SplitDirectory(area: Area, rest: seq<Child>)
    ensures DirectoryOf([SubArea(area)] + rest)
            == [AreaEntry(area.code, area.end)] + (DirectoryOf(area.children) + DirectoryOf(rest))
    ensures |Directory(area)| == 1 + |DirectoryOf(area.children)|
  {
    var all := [SubArea(area)] + rest;
    assert all[0] == SubArea(area) && all[1..] == rest;
  }

  lemma AreaShape(area: Area)
    ensures Shape(area) == AreaNode(area.code, area.end, Shapes(area.children))
    ensures EntryOf(Shape(area)) == AreaEntry(area.code, area.end)
  {
  }

  lemma SplitService(service: Service, rest: seq<Child>, code: u16, end: u16)
    requires var all := [Leaf(service)] + rest; WellFormedChildren(all, code, end) && Separated(Shapes(all))
    ensures code <= service.code <= end
    ensures WellFormedChildren(rest, code, end) && Separated(Shapes(rest))
    ensures Shapes([Leaf(service)] + rest) == [ServiceNode(service.code)] + Shapes(rest)
    ensures DirectoryOf([Leaf(service)] + rest) == [ServiceEntry(service.code)] + DirectoryOf(rest)
  {
    var all := [Leaf(service)] + rest;
    assert all[0] == Leaf(service) && all[1..] == rest;
    assert Shapes(all) == [ServiceNode(service.code)] + Shapes(rest);
    assert Shapes(all)[1..] == Shapes(rest);
  }

  /** What the walk of an area needs to rebuild its children. */
  ghost predicate Rebuildable(card: Card, children: seq<Child>, code: u16, end: u16, index: u16) {
    && WellFormedChildren(children, code, end) && Separated(Shapes(children))
    && Agrees(card, index, DirectoryOf(children)) && Stops(card, index + |DirectoryOf(children)|, code, end)
  }

  ghost predicate Rebuilt(card: Card, children: seq<Child>, code: u16, end: u16, index: u16) {
    Finds(card, code, end, index, Shapes(children), DirectoryOf(children))
  }

  lemma ServiceRebuildable(card: Card, service: Service, rest: seq<Child>, code: u16, end: u16, index: u16)
    requires Rebuildable(card, [Leaf(service)] + rest, code, end, index)
    ensures index < LAST_INDEX && Rebuildable(card, rest, code, end, index + 1)
    ensures Rebuilt(card, rest, code, end, index + 1) ==> Rebuilt(card, [Leaf(service)] + rest, code, end, index)
  {
    SplitService(service, rest, code, end);
    AgreesFirst(card, index, ServiceEntry(service.code), DirectoryOf(rest));
    if Rebuilt(card, rest, code, end, index + 1) {
      FindsService(card, code, end, index, service.code, Shapes(rest), DirectoryOf(rest));
    }
  }

  lemma AreaRebuildable(card: Card, area: Area, rest: seq<Child>, code: u16, end: u16, index: u16)
    requires Rebuildable(card, [SubArea(area)] + rest, code, end, index)
    ensures index + |Directory(area)| <= LAST_INDEX as int
    ensures Rebuildable(card, area.children, area.code, area.end, index + 1)
    ensures Rebuildable(card, rest, code, end, index + |Directory(area)|)
  {
    hide *;
    Unpack(card, [SubArea(area)] + rest, code, end, index);
    var inner, outer := DirectoryOf(area.children), DirectoryOf(rest);
    SplitArea(area, rest, code, end);
    SplitTree(area, rest, code, end);
    AgreesFirst(card, index, AreaEntry(area.code, area.end), inner + outer);
    AgreesParts(card, index + 1, inner, outer);
    AgreesBounds(card, index + 1 + |inner|, outer);
    ChildStops(card, area, rest, code, end, index + |Directory(area)|);
    Pack(card, area.children, area.code, area.end, index + 1);
    Pack(card, rest, code, end, index + |Directory(area)|);
  }

  lemma AgreesBounds(card: Card, index: u16, entries: seq<DirectoryEntry>)
    requires Agrees(card, index, entries)
    ensures index + |entries| <= LAST_INDEX as int
  {
  }

  lemma Unpack(card: Card, children: seq<Child>, code: u16, end: u16, index: u16)
    requires Rebuildable(card, children, code, end, index)
    ensures WellFormedChildren(children, code, end) && Separated(Shapes(children))
    ensures Agrees(card, index, DirectoryOf(children)) && index + |DirectoryOf(children)| <= LAST_INDEX as int
    ensures Stops(card, index + |DirectoryOf(children)|, code, end)
  {
  }

  lemma Pack(card: Card, children: seq<Child>, code: u16, end: u16, index: u16)
    requires WellFormedChildren(children, code, end) && Separated(Shapes(children))
    requires Agrees(card, index, DirectoryOf(children)) && index + |DirectoryOf(children)| <= LAST_INDEX as int
    requires Stops(card, index + |DirectoryOf(children)|, code, end)
    ensures Rebuildable(card, children, code, end, index)
  {
  }

  lemma AreaRebuilt(card: Card, area: Area, rest: seq<Child>, code: u16, end: u16, index: u16)
    requires Rebuildable(card, [SubArea(area)] + rest, code, end, index)
    requires index + |Directory(area)| <= LAST_INDEX as int
    requires Rebuilt(card, area.children, area.code, area.end, index + 1)
    requires Rebuilt(card, rest, code, end, index + |Directory(area)|)
    ensures Rebuilt(card, [SubArea(area)] + rest, code, end, index)
  {
    hide *;
    RebuiltParts(card, area.children, area.code, area.end, index + 1);
    RebuiltParts(card, rest, code, end, index + |Directory(area)|);
    Unpack(card, [SubArea(area)] + rest, code, end, index);
    var inner := DirectoryOf(area.children);
    SplitArea(area, rest, code, end);
    SplitTree(area, rest, code, end);
    AgreesFirst(card, index, AreaEntry(area.code, area.end), inner + DirectoryOf(rest));
    ShapeFields(area, code, end);
    FindsArea(card, code, end, index, Shape(area), inner, Shapes(rest), DirectoryOf(rest));
    RebuiltParts(card, [SubArea(area)] + rest, code, end, index);
  }

  lemma RebuiltParts(card: Card, children: seq<Child>, code: u16, end: u16, index: u16)
    ensures Rebuilt(card, children, code, end, index)
            <==> Finds(card, code, end, index, Shapes(children), DirectoryOf(children))
  {
  }

  lemma ShapeFields(area: Area, code: u16, end: u16)
    requires code <= area.code && area.end <= end
    ensures Shape(area) == AreaNode(area.code, area.end, Shapes(area.children))
    ensures EntryOf(Shape(area)) == AreaEntry(area.code, area.end) && Inside(EntryOf(Shape(area)), code, end)
  {
  }

  lemma NothingRebuilt(card: Card, code: u16, end: u16, index: u16)
    requires Rebuildable(card, [], code, end, index)
    ensures Rebuilt(card, [], code, end, index)
  {
  }

  /** The walk rebuilds the children of a separated well-formed area from their entries. */
  lemma {:induction false} RebuildChildren(card: Card, children: seq<Child>, code: u16, end: u16, index: u16)
    requires Rebuildable(card, children, code, end, index)
    ensures Rebuilt(card, children, code, end, index)
    decreases children
  {
    hide *;
    if children == [] {
      NothingRebuilt(card, code, end, index);
    } else {
      var rest := children[1..];
      assert children == [children[0]] + rest;
      match children[0]
      case Leaf(service) =>
        ServiceRebuildable(card, service, rest, code, end, index);
        RebuildChildren(card, rest, code, end, index + 1);
      case SubArea(area) =>
        assert area < children[0];
        AreaRebuildable(card, area, rest, code, end, index);
        RebuildChildren(card, area.children, area.code, area.end, index + 1);
        RebuildChildren(card, rest, code, end, index + |Directory(area)|);
        AreaRebuilt(card, area, rest, code, end, index);
    }
  }

  /**
   The walk over a stored tree's directory. It always lists every entry; it rebuilds the
   nesting exactly when no area captures the sibling behind it, and then it stops at the
   end of the directory, without a warning, having met the codes in order.
   */
  lemma Rebuild(area: Area)
    requires WellFormed(area) && |Directory(area)| <= LAST_INDEX as int
    ensures var entries := Directory(area); var walk := WalkSystem(CardOf(entries), 0);
            && Flatten(walk.nodes) == entries
            && (walk.nodes == [Shape(area)] <==> Separated([Shape(area)]))
            && (Separated([Shape(area)]) ==> walk == Walk([Shape(area)], |entries|, CodesOf(entries), []))
  {
    var entries := Directory(area);
    var card := CardOf(entries);
    ListsAll(entries);
    SystemWalkIsSeparated(card, 0);
    if Separated([Shape(area)]) {
      RebuildSeparated(area);
    }
  }

  lemma ListsAll(entries: seq<DirectoryEntry>)
    requires |entries| <= LAST_INDEX as int
    ensures Flatten(WalkSystem(CardOf(entries), 0).nodes) == entries
  {
    var card := CardOf(entries);
    WalkListsDirectory(card);
    var walk := WalkSystem(card, 0);
    SameList(entries, Flatten(walk.nodes), walk.next);
  }

  lemma SameList(entries: seq<DirectoryEntry>, listed: seq<DirectoryEntry>, next: u16)
    requires |entries| <= LAST_INDEX as int && |listed| == next as int && CardOf(entries)(next) == None
    requires forall k: u16 | k < next :: CardOf(entries)(k) == Some(listed[k])
    ensures listed == entries
  {
    forall k: u16 | k < next
      ensures k < |entries| && listed[k] == entries[k]
    {
      assert CardOf(entries)(k) == Some(listed[k]);
    }
    if next > 0 {
      var last: u16 := next - 1;
      assert CardOf(entries)(last) == Some(listed[last]);
    }
  }

  lemma RebuildSeparated(area: Area)
    requires WellFormed(area) && |Directory(area)| <= LAST_INDEX as int
    requires Separated([Shape(area)])
    ensures WalkSystem(CardOf(Directory(area)), 0)
            == Walk([Shape(area)], |Directory(area)|, CodesOf(Directory(area)), [])
  {
    var entries, inner := Directory(area), DirectoryOf(area.children);
    var card := CardOf(entries);
    assert entries == [AreaEntry(area.code, area.end)] + inner;
    AgreesParts(card, 0, [AreaEntry(area.code, area.end)], inner);
    RebuildChildren(card, area.children, area.code, area.end, 1);
    CodesAppend([AreaEntry(area.code, area.end)], inner);
    var next: u16 := |entries|;
    assert card(next) == None;
    var none: seq<Warning> := [];
    assert none + none == none;
    assert WalkSystem(card, next) == Walk([], next, [], none);
    assert card(0) == Some(AreaEntry(area.code, area.end));
  }

  /** A tree the builders accept: an empty area of range 40-BF, and behind it service 48. */
  function CapturingTree(): Area {
    Area(0x0000, 0xFFFE, [SubArea(Area(0x0040, 0x00BF, [])), Leaf(Service(0x0048, 0))])
  }

  /** The walk finds that service in the area in front of it, so the nesting comes out different. */
  lemma CapturedSibling()
    ensures WellFormed(CapturingTree()) && |Directory(CapturingTree())| == 3
    ensures WalkSystem(CardOf(Directory(CapturingTree())), 0).nodes != [Shape(CapturingTree())]
  {
    var inner, service := Area(0x0040, 0x00BF, []), Service(0x0048, 0);
    var children := [SubArea(inner), Leaf(service)];
    CapturingIsWellFormed(inner, service, children);
    var nodes := [Shape(inner), ServiceNode(0x0048)];
    assert Shapes(children) == nodes by {
      assert children[1..] == [Leaf(service)] && [Leaf(service)][1..] == [];
    }
    assert Captures(0x0040, 0x00BF, EntryOf(nodes[1]));
    assert !Separated(nodes);
    assert [Shape(CapturingTree())][0].children == nodes;
    Rebuild(CapturingTree());
  }

  lemma CapturingIsWellFormed(inner: Area, service: Service, children: seq<Child>)
    requires inner == Area(0x0040, 0x00BF, []) && service == Service(0x0048, 0)
    requires children == [SubArea(inner), Leaf(service)]
    ensures WellFormed(Area(0x0000, 0xFFFE, children)) && |Directory(Area(0x0000, 0xFFFE, children))| == 3
  {
    assert children[1..] == [Leaf(service)] && [Leaf(service)][1..] == [];
    assert WellFormedChildren([Leaf(service)], 0x0000, 0xFFFE);
    assert WellFormed(inner);
    assert Directory(inner) == [AreaEntry(0x0040, 0x00BF)];
    assert DirectoryOf([Leaf(service)]) == [ServiceEntry(0x0048)] + [];
    assert DirectoryOf(children) == Directory(inner) + DirectoryOf([Leaf(service)]);
  }
}
