/**
 How deep the walk over a card's directory nests. The program descends by one call for
 each area it enters, and each call yields one node, so the depth of its calls is the
 height of what it finds.
 */
module DirectoryDepth {
  import opened Bytes
  import opened Wrappers
  import opened ServiceCodes
  import opened AreaTree
  import opened DirectoryWalk

  /** The number of areas inside one another. */
  function Height(nodes: seq<Node>): nat
    decreases nodes
  {
    if nodes == [] then 0 else Max(HeightOf(nodes[0]), Height(nodes[1..]))
  }

  function HeightOf(node: Node): nat
    decreases node
  {
    match node
    case AreaNode(_, _, children) => 1 + Height(children)
    case ServiceNode(_) => 0
  }

  function Max(a: nat, b: nat): nat { if a < b then b else a }

  lemma HeightOfNone()
    ensures Height([]) == 0
  {
  }

  lemma HeightOfService(code: u16, nodes: seq<Node>)
    ensures Height([ServiceNode(code)] + nodes) == Height(nodes)
  {
    assert ([ServiceNode(code)] + nodes)[1..] == nodes;
  }

  lemma HeightOfArea(code: u16, end: u16, children: seq<Node>, nodes: seq<Node>)
    ensures Height([AreaNode(code, end, children)] + nodes) == Max(1 + Height(children), Height(nodes))
  {
    var node := AreaNode(code, end, children);
    assert ([node] + nodes)[1..] == nodes && HeightOf(node) == 1 + Height(children);
  }

  /** From `index` on to the last but one, each entry is an area that the area before it takes. */
  ghost predicate Nests(card: Card, code: u16, end: u16, index: u16)
    decreases 0x1_0000 - index
  {
    index == LAST_INDEX
    || (match card(index)
        case Some(AreaEntry(child, childEnd)) =>
          Captures(code, end, AreaEntry(child, childEnd)) && Nests(card, child, childEnd, index + 1)
        case _ => false)
  }

  /** The same without recursion. */
  ghost predicate Chain(card: Card, index: u16) {
    && (forall i: u16 | index <= i < LAST_INDEX :: card(i).Some? && card(i).value.AreaEntry?)
    && (forall i: u16 | index < i < LAST_INDEX :: TakenByPrevious(card, i))
  }

  ghost predicate TakenByPrevious(card: Card, i: u16)
    requires i > 0
  {
    && card(i).Some? && card(i - 1).Some? && card(i - 1).value.AreaEntry?
    && Captures(card(i - 1).value.areaCode, card(i - 1).value.end, card(i).value)
  }

  lemma {:induction false} NestsIsChain(card: Card, code: u16, end: u16, index: u16)
    ensures Nests(card, code, end, index)
            <==> Chain(card, index) && (index < LAST_INDEX ==> Captures(code, end, card(index).value))
    decreases 0x1_0000 - index
  {
    if index < LAST_INDEX && card(index).Some? && card(index).value.AreaEntry? {
      var entry := card(index).value;
      NestsIsChain(card, entry.areaCode, entry.end, index + 1);
      if Chain(card, index) && index + 1 < LAST_INDEX {
        assert TakenByPrevious(card, index + 1);
      }
    }
  }

  /** What an area's walk finds, one entry at a time. */
  lemma WalkNodes(card: Card, code: u16, end: u16, index: u16)
    ensures WalkArea(card, code, end, index).nodes
            == if card(index).None? || !Captures(code, end, card(index).value) then []
               else
                 match card(index).value
                 case ServiceEntry(service) =>
                   [ServiceNode(service)]
                   + if index == LAST_INDEX then [] else WalkArea(card, code, end, index + 1).nodes
                 case AreaEntry(child, childEnd) =>
                   if index == LAST_INDEX then []
                   else
                     var below := WalkArea(card, child, childEnd, index + 1);
                     [AreaNode(child, childEnd, below.nodes)] + WalkArea(card, code, end, below.next).nodes
  {
  }

  /** An area's walk nests no deeper than there are indexes left, and so deep exactly if each entry takes the next. */
  lemma {:induction false} AreaHeight(card: Card, code: u16, end: u16, index: u16)
    ensures Height(WalkArea(card, code, end, index).nodes) <= LAST_INDEX - index
    ensures Height(WalkArea(card, code, end, index).nodes) == LAST_INDEX - index <==> Nests(card, code, end, index)
    decreases 0x1_0000 - index
  {
    hide Height, HeightOf, WalkArea, Captures;
    HeightOfNone();
    WalkNodes(card, code, end, index);
    if card(index).Some? && Captures(code, end, card(index).value) {
      match card(index).value
      case ServiceEntry(service) =>
        if index < LAST_INDEX {
          AreaHeight(card, code, end, index + 1);
          HeightOfService(service, WalkArea(card, code, end, index + 1).nodes);
        } else {
          HeightOfService(service, []);
        }
      case AreaEntry(child, childEnd) =>
        if index < LAST_INDEX {
          var below := WalkArea(card, child, childEnd, index + 1);
          AreaHeight(card, child, childEnd, index + 1);
          AreaHeight(card, code, end, below.next);
          HeightOfArea(child, childEnd, below.nodes, WalkArea(card, code, end, below.next).nodes);
        }
    }
  }

  lemma ChainFrom(card: Card, index: u16)
    ensures Chain(card, index)
            <==> index == LAST_INDEX
                 || (match card(index)
                     case Some(AreaEntry(code, end)) =>
                       && Chain(card, index + 1)
                       && (index + 1 < LAST_INDEX ==> Captures(code, end, card(index + 1).value))
                     case _ => false)
  {
    if index + 1 < LAST_INDEX && Chain(card, index) {
      assert TakenByPrevious(card, index + 1);
    }
  }

  lemma {:induction false} SystemHeight(card: Card, index: u16)
    ensures Height(WalkSystem(card, index).nodes) <= LAST_INDEX - index
    ensures Height(WalkSystem(card, index).nodes) == LAST_INDEX - index <==> Chain(card, index)
    decreases 0x1_0000 - index
  {
    hide Height, HeightOf, Chain, Nests, Captures, WalkArea;
    HeightOfNone();
    ChainFrom(card, index);
    match card(index)
    case None =>
    case Some(AreaEntry(code, end)) =>
      if index < LAST_INDEX {
        var below := WalkArea(card, code, end, index + 1);
        AreaHeight(card, code, end, index + 1);
        NestsIsChain(card, code, end, index + 1);
        SystemHeight(card, below.next);
        HeightOfArea(code, end, below.nodes, WalkSystem(card, below.next).nodes);
      }
    case Some(ServiceEntry(service)) =>
      if index == LAST_INDEX {
        HeightOfService(service, []);
        assert [ServiceNode(service)] + [] == [ServiceNode(service)];
      } else {
        SystemHeight(card, index + 1);
        HeightOfService(service, WalkSystem(card, index + 1).nodes);
      }
  }

  /**
   For every card the walk nests at most 65,535 deep, and so deep exactly if every entry
   before the last index is an area that the area before it takes.
   */
  lemma DeepestWalk(card: Card)
    ensures Height(WalkSystem(card, 0).nodes) <= 0xFFFF
    ensures Height(WalkSystem(card, 0).nodes) == 0xFFFF <==> Chain(card, 0)
  {
    SystemHeight(card, 0);
  }

  /** A card that answers every index with one and the same area is walked to that depth. */
  lemma SameAreaEverywhere(card: Card, area: DirectoryEntry)
    requires area.AreaEntry? && area.areaCode <= area.end
    requires forall i: u16 :: card(i) == Some(area)
    ensures Height(WalkSystem(card, 0).nodes) == 0xFFFF
  {
    hide Height, WalkSystem;
    DeepestWalk(card);
    assert forall i: u16 | 0 < i < LAST_INDEX :: TakenByPrevious(card, i);
  }
}
