/** The walk over a card's directory as the dump performs it. */
module DirectoryWalker {
  import opened Bytes
  import opened Wrappers
  import opened ServiceCodes
  import opened AreaTree
  import opened DirectoryWalk
  import opened DirectoryRebuild

  // ------------------------------------------------------------- what is gathered

  /** The children, the requested codes and the warnings gathered so far. */
  datatype Tally = Tally(children: seq<ChildSummary>, codes: seq<u16>, warnings: seq<Warning>)
  {
    /** What is gathered once `found` has been walked from here. */
    function With(found: Walk): Tally {
      Tally(Merge(Summaries(found.nodes)), Register(codes, found.codes), warnings + found.warnings)
    }
  }

  /** What was found first with one more node behind it. */
  function Extend(found: Walk, node: Node, next: u16, codes: seq<u16>, warnings: seq<Warning>): Walk {
    Walk(found.nodes + [node], next, found.codes + codes, found.warnings + warnings)
  }

  /** What was found first with one more area behind it, and all that is below that. */
  function ExtendArea(found: Walk, code: u16, end: u16, below: Walk): Walk {
    Extend(found, AreaNode(code, end, below.nodes), below.next, [code] + below.codes, below.warnings)
  }

  /** What was found first, and then what was found after it. */
  function Join(first: Walk, rest: Walk): Walk {
    Walk(first.nodes + rest.nodes, rest.next, first.codes + rest.codes, first.warnings + rest.warnings)
  }

  lemma JoinAfter(first: Walk, node: Node, next: u16, codes: seq<u16>, warnings: seq<Warning>, rest: Walk)
    ensures Join(first, rest.After(node, codes, warnings)) == Join(Extend(first, node, next, codes, warnings), rest)
  {
    assert first.nodes + ([node] + rest.nodes) == first.nodes + [node] + rest.nodes;
    assert first.codes + (codes + rest.codes) == first.codes + codes + rest.codes;
    assert first.warnings + (warnings + rest.warnings) == first.warnings + warnings + rest.warnings;
  }

  function OneSummary(node: Node): ChildSummary {
    match node
    case AreaNode(_, _, _) => AreaChild(Summary(node))
    case ServiceNode(code) => ServiceGroup(Number(code), [code])
  }

  lemma {:induction false} SummariesAppend(nodes: seq<Node>, node: Node)
    ensures Summaries(nodes + [node]) == Summaries(nodes) + [OneSummary(node)]
    decreases |nodes|
  {
    var all := nodes + [node];
    if nodes == [] {
      assert all[0] == node && all[1..] == [];
    } else {
      assert all[0] == nodes[0] && all[1..] == nodes[1..] + [node];
      SummariesAppend(nodes[1..], node);
      assert Summaries(all) == [OneSummary(nodes[0])] + (Summaries(nodes[1..]) + [OneSummary(node)]);
    }
  }

  lemma TallyNothing(start: Tally, next: u16)
    requires start.children == []
    ensures start.With(Walk([], next, [], [])) == start
  {
    assert start.warnings + [] == start.warnings;
  }

  lemma TallyService(start: Tally, found: Walk, service: u16, next: u16, overflow: seq<Warning>)
    ensures var now := start.With(found);
            start.With(Extend(found, ServiceNode(service), next, [service], overflow))
            == Tally(AppendService(now.children, service), Register(now.codes, [service]), now.warnings + overflow)
  {
    SummariesAppend(found.nodes, ServiceNode(service));
    MergeService(Summaries(found.nodes), service);
    RegisterAppend(start.codes, found.codes, [service]);
    assert start.warnings + (found.warnings + overflow) == start.warnings + found.warnings + overflow;
  }

  lemma TallyArea(start: Tally, found: Walk, child: u16, end: u16, below: Walk)
    ensures var now := start.With(found);
            start.With(ExtendArea(found, child, end, below))
            == Tally(now.children + [AreaChild(AreaSummary(child, end, Merge(Summaries(below.nodes))))],
                     Register(now.codes, [child] + below.codes), now.warnings + below.warnings)
  {
    var node := AreaNode(child, end, below.nodes);
    SummariesAppend(found.nodes, node);
    MergeArea(Summaries(found.nodes), Summary(node));
    RegisterAppend(start.codes, found.codes, [child] + below.codes);
    assert start.warnings + (found.warnings + below.warnings) == start.warnings + found.warnings + below.warnings;
  }

  lemma JoinNothing(found: Walk, warnings: seq<Warning>)
    ensures Join(found, Walk([], found.next, [], warnings)) == found.(warnings := found.warnings + warnings)
    ensures Join(found, Walk([], found.next, [], [])) == found
    ensures forall next: u16 :: Join(Walk([], next, [], []), found) == found
  {
  }

  /** An area's walk takes a service. */
  lemma TakeService(card: Card, code: u16, end: u16, found: Walk, service: u16)
    requires card(found.next) == Some(ServiceEntry(service)) && Inside(ServiceEntry(service), code, end)
    ensures var index := found.next;
            Join(found, WalkArea(card, code, end, index))
            == if index == LAST_INDEX then
                 Extend(found, ServiceNode(service), index, [service], [OverflowTraversing(code)])
               else
                 Join(Extend(found, ServiceNode(service), index + 1, [service], []),
                      WalkArea(card, code, end, index + 1))
  {
    if found.next < LAST_INDEX {
      var next := found.next + 1;
      JoinAfter(found, ServiceNode(service), next, [service], [], WalkArea(card, code, end, next));
    }
  }

  /** An area's walk takes a child area, with all that is below it. */
  lemma TakeArea(card: Card, code: u16, end: u16, found: Walk, child: u16, childEnd: u16)
    requires card(found.next) == Some(AreaEntry(child, childEnd)) && found.next < LAST_INDEX
    requires child <= childEnd && Inside(AreaEntry(child, childEnd), code, end)
    ensures var below := WalkArea(card, child, childEnd, found.next + 1);
            var after := ExtendArea(found, child, childEnd, below);
            Join(found, WalkArea(card, code, end, found.next)) == Join(after, WalkArea(card, code, end, below.next))
  {
    var below := WalkArea(card, child, childEnd, found.next + 1);
    JoinAfter(found, AreaNode(child, childEnd, below.nodes), below.next, [child] + below.codes, below.warnings,
              WalkArea(card, code, end, below.next));
  }

  /** What an area's walk warns of where it takes nothing. */
  function StopWarnings(card: Card, code: u16, end: u16, index: u16): seq<Warning> {
    match card(index)
    case Some(AreaEntry(child, childEnd)) =>
      if childEnd < child then [EndPrecedesStart(child, childEnd)]
      else if Inside(AreaEntry(child, childEnd), code, end) && index == LAST_INDEX then [OverflowDescending(child)]
      else []
    case _ => []
  }

  predicate TakesNothing(card: Card, code: u16, end: u16, index: u16) {
    match card(index)
    case None => true
    case Some(ServiceEntry(service)) => !Inside(ServiceEntry(service), code, end)
    case Some(AreaEntry(child, childEnd)) =>
      childEnd < child || !Inside(AreaEntry(child, childEnd), code, end) || index == LAST_INDEX
  }

  lemma TakeNothing(card: Card, code: u16, end: u16, start: Tally, found: Walk)
    requires TakesNothing(card, code, end, found.next)
    ensures var more := StopWarnings(card, code, end, found.next);
            var after, now := found.(warnings := found.warnings + more), start.With(found);
            && Join(found, WalkArea(card, code, end, found.next)) == after
            && start.With(after) == now.(warnings := now.warnings + more)
  {
    var more := StopWarnings(card, code, end, found.next);
    JoinNothing(found, more);
    assert start.warnings + (found.warnings + more) == start.warnings + found.warnings + more;
  }

  /** The children that are service groups. */
  function GroupChildren(children: seq<ChildSummary>): seq<ChildSummary> {
    if children == [] then []
    else (if children[0].ServiceGroup? then [children[0]] else []) + GroupChildren(children[1..])
  }

  lemma {:induction false} SplitAppend(children: seq<ChildSummary>, child: ChildSummary)
    ensures AreaChildren(children + [child]) == AreaChildren(children) + if child.AreaChild? then [child.area] else []
    ensures GroupChildren(children + [child]) == GroupChildren(children) + if child.ServiceGroup? then [child] else []
    decreases |children|
  {
    var all := children + [child];
    if children == [] {
      assert all[0] == child && all[1..] == [];
    } else {
      assert all[0] == children[0] && all[1..] == children[1..] + [child];
      SplitAppend(children[1..], child);
    }
  }

  /** What a system walk gathers: areas and groups of services apart. */
  datatype SystemTally =
    SystemTally(areas: seq<AreaSummary>, groups: seq<ChildSummary>, codes: seq<u16>, warnings: seq<Warning>)

  function Gathered(codes: seq<u16>, found: Walk): SystemTally {
    var summaries := Summaries(found.nodes);
    SystemTally(AreaChildren(summaries), Merge(GroupChildren(summaries)), Register(codes, found.codes), found.warnings)
  }

  lemma GatherNothing(codes: seq<u16>)
    ensures Gathered(codes, Walk([], 0, [], [])) == SystemTally([], [], codes, [])
  {
  }

  lemma GatherService(codes: seq<u16>, found: Walk, service: u16, next: u16, warnings: seq<Warning>)
    ensures var now := Gathered(codes, found);
            Gathered(codes, Extend(found, ServiceNode(service), next, [service], warnings))
            == SystemTally(now.areas, AppendService(now.groups, service), Register(now.codes, [service]),
                           now.warnings + warnings)
  {
    SummariesAppend(found.nodes, ServiceNode(service));
    SplitAppend(Summaries(found.nodes), OneSummary(ServiceNode(service)));
    MergeService(GroupChildren(Summaries(found.nodes)), service);
    RegisterAppend(codes, found.codes, [service]);
    assert AreaChildren(Summaries(found.nodes)) + [] == AreaChildren(Summaries(found.nodes));
  }

  lemma GatherArea(codes: seq<u16>, found: Walk, code: u16, end: u16, below: Walk)
    ensures var now := Gathered(codes, found);
            Gathered(codes, ExtendArea(found, code, end, below))
            == SystemTally(now.areas + [AreaSummary(code, end, Merge(Summaries(below.nodes)))], now.groups,
                           Register(now.codes, [code] + below.codes), now.warnings + below.warnings)
  {
    var node := AreaNode(code, end, below.nodes);
    SummariesAppend(found.nodes, node);
    SplitAppend(Summaries(found.nodes), OneSummary(node));
    RegisterAppend(codes, found.codes, [code] + below.codes);
    assert GroupChildren(Summaries(found.nodes)) + [] == GroupChildren(Summaries(found.nodes));
  }

  lemma PassService(card: Card, codes: seq<u16>, found: Walk, index: u16, service: u16)
    requires found.next == index && card(index) == Some(ServiceEntry(service)) && index < LAST_INDEX
    ensures var more := [NoParentArea(service, index)];
            var now, after := Gathered(codes, found), Extend(found, ServiceNode(service), index + 1, [service], more);
            && Join(found, WalkSystem(card, index)) == Join(after, WalkSystem(card, index + 1))
            && Gathered(codes, after)
               == SystemTally(now.areas, AppendService(now.groups, service), Register(now.codes, [service]),
                              now.warnings + more)
  {
    var more := [NoParentArea(service, index)];
    GatherService(codes, found, service, index + 1, more);
    JoinAfter(found, ServiceNode(service), index + 1, [service], more, WalkSystem(card, index + 1));
  }

  lemma PassArea(card: Card, codes: seq<u16>, found: Walk, index: u16, code: u16, end: u16)
    requires found.next == index && card(index) == Some(AreaEntry(code, end)) && index < LAST_INDEX
    ensures var below := WalkArea(card, code, end, index + 1);
            var after := ExtendArea(found, code, end, below);
            var now := Gathered(codes, found);
            && Join(found, WalkSystem(card, index)) == Join(after, WalkSystem(card, below.next))
            && Gathered(codes, after)
               == SystemTally(now.areas + [AreaSummary(code, end, Merge(Summaries(below.nodes)))], now.groups,
                              Register(now.codes, [code] + below.codes), now.warnings + below.warnings)
  {
    var below := WalkArea(card, code, end, index + 1);
    GatherArea(codes, found, code, end, below);
    JoinAfter(found, AreaNode(code, end, below.nodes), below.next, [code] + below.codes, below.warnings,
              WalkSystem(card, below.next));
  }

  /** The last index is that of a service. */
  lemma PassLastService(card: Card, codes: seq<u16>, found: Walk, service: u16)
    requires found.next == LAST_INDEX && card(LAST_INDEX) == Some(ServiceEntry(service))
    ensures var more := [NoParentArea(service, LAST_INDEX), OverflowAtSystemLevel];
            var now, after := Gathered(codes, found), Extend(found, ServiceNode(service), LAST_INDEX, [service], more);
            && Join(found, WalkSystem(card, LAST_INDEX)) == after
            && Gathered(codes, after)
               == SystemTally(now.areas, AppendService(now.groups, service), Register(now.codes, [service]),
                              now.warnings + more)
  {
    GatherService(codes, found, service, LAST_INDEX, [NoParentArea(service, LAST_INDEX), OverflowAtSystemLevel]);
  }

  /** The last index is that of an area, or there is no entry at the index. */
  lemma PassEnd(card: Card, codes: seq<u16>, found: Walk)
    requires card(found.next) == None || (found.next == LAST_INDEX && card(LAST_INDEX).value.AreaEntry?)
    ensures var warning := if card(found.next) == None then []
                           else [OverflowDescending(card(found.next).value.areaCode)];
            var after := found.(warnings := found.warnings + warning);
            && Join(found, WalkSystem(card, found.next)) == after
            && Gathered(codes, found).warnings == found.warnings
            && Gathered(codes, after) == Gathered(codes, found).(warnings := after.warnings)
  {
    var warning := if card(found.next) == None then [] else [OverflowDescending(card(found.next).value.areaCode)];
    JoinNothing(found, warning);
  }

  /**
   What the walk gathers from a stored tree: when no area captures the sibling behind it,
   the tree's own areas with their services grouped, every code once, and no warning.
   */
  lemma StoredTreeIsGathered(area: Area)
    requires WellFormed(area) && |Directory(area)| <= LAST_INDEX as int && Separated([Shape(area)])
    ensures Gathered([], WalkSystem(CardOf(Directory(area)), 0))
            == SystemTally([Summary(Shape(area))], [], Register([], CodesOf(Directory(area))), [])
  {
    hide WalkSystem, Summary, Separated, Shape;
    Rebuild(area);
    OneArea(Shape(area));
  }

  lemma OneArea(node: Node)
    requires node.AreaNode?
    ensures AreaChildren(Summaries([node])) == [Summary(node)]
    ensures Merge(GroupChildren(Summaries([node]))) == []
  {
    var child := AreaChild(Summary(node));
    assert [node][1..] == [] && Summaries([node]) == [child] + [];
    assert Summaries([node])[1..] == [];
    assert AreaChildren(Summaries([node])) == [Summary(node)] + [];
    assert GroupChildren(Summaries([node])) == [] + [];
  }

  // ------------------------------------------------------------------- the walker

  lemma JoinNext(first: Walk, rest: Walk)
    ensures Join(first, rest).next == rest.next
  {
  }

  class Walker {
    const card: Card
    /** The indexes at which the card fails to answer. */
    const fails: u16 -> bool
    var keyRequestCodes: seq<u16>
    var seenCodes: set<u16>
    var warnings: seq<Warning>

    ghost predicate Valid()
      reads this
    {
      && Distinct(keyRequestCodes)
      && (forall c :: c in seenCodes <==> c in keyRequestCodes)
    }

    constructor (card: Card, fails: u16 -> bool)
      ensures Valid() && this.card == card && this.fails == fails
      ensures keyRequestCodes == [] && warnings == []
    {
      this.card, this.fails := card, fails;
      keyRequestCodes, seenCodes, warnings := [], {}, [];
    }

    ghost predicate Answers(from: u16, to: u16) {
      forall i: u16 | from <= i <= to :: !fails(i)
    }

    method RegisterServiceCode(code: u16)
      requires Valid()
      modifies this`seenCodes, this`keyRequestCodes
      ensures Valid()
      ensures keyRequestCodes == Register(old(keyRequestCodes), [code])
    {
      RegisterIsDistinct(keyRequestCodes, [code]);
      if code !in seenCodes {
        seenCodes := seenCodes + {code};
        keyRequestCodes := keyRequestCodes + [code];
      }
    }

    /** Adds a service to the group of its number, or as a new group. */
    static method AppendServiceChild(children: seq<ChildSummary>, code: u16) returns (grouped: seq<ChildSummary>)
      ensures grouped == AppendService(children, code)
    {
      var number := Number(code);
      var i := 0;
      while i < |children| && !HasNumber(children[i], number)
        invariant i <= |children|
        invariant FindGroup(children, number) == i + FindGroup(children[i..], number)
      {
        assert children[i..][1..] == children[i + 1..];
        i := i + 1;
      }
      if i < |children| {
        var group := children[i];
        grouped := children[i := ServiceGroup(group.number, group.services + [code])];
      } else {
        grouped := children + [ServiceGroup(number, [code])];
      }
    }

    /**
     The area whose children start at `start`, and the index after it, unless the card
     fails to answer an index up to there. What is found is what the recursive walk
     finds, whatever the card answers; a child area's walk always advances, so the
     warning that it did not cannot arise.
     */
    method CollectArea(areaCode: u16, end: u16, start: u16) returns (collected: Option<(AreaSummary, u16)>)
      requires Valid()
      modifies this
      ensures Valid()
      ensures collected.Some? <==> Answers(start, WalkArea(card, areaCode, end, start).next)
      ensures var walk := WalkArea(card, areaCode, end, start);
              collected.Some? ==>
                && collected.value == (AreaSummary(areaCode, end, Merge(Summaries(walk.nodes))), walk.next)
                && keyRequestCodes == Register(old(keyRequestCodes), [areaCode] + walk.codes)
                && warnings == old(warnings) + walk.warnings
      decreases 0x1_0000 - start
    {
      hide Merge, Summaries, Register, AppendService, Distinct, WalkArea, Join;
      ghost var whole := WalkArea(card, areaCode, end, start);
      RegisterServiceCode(areaCode);
      ghost var first := Tally([], keyRequestCodes, warnings);
      ghost var found := Walk([], start, [], []);
      TallyNothing(first, start);
      JoinNothing(whole, []);
      var index, children, done := start, [], false;
      while !done
        invariant Valid() && start <= index == found.next
        invariant whole == if done then found else Join(found, WalkArea(card, areaCode, end, index))
        invariant Tally(children, keyRequestCodes, warnings) == first.With(found)
        invariant forall i: u16 | start <= i < index :: !fails(i)
        invariant done ==> !fails(index)
        decreases !done, 0x1_0000 - index as int
      {
        JoinNext(found, WalkArea(card, areaCode, end, index));
        if fails(index) {
          return None;
        }
        match card(index) {
          case None =>
            done := true;
            TakeNothing(card, areaCode, end, first, found);
            found := whole;
          case Some(ServiceEntry(service)) =>
            if service < areaCode || service > end {
              done := true;
              TakeNothing(card, areaCode, end, first, found);
              found := whole;
            } else {
              TakeService(card, areaCode, end, found, service);
              RegisterServiceCode(service);
              children := AppendServiceChild(children, service);
              if index == LAST_INDEX {
                warnings := warnings + [OverflowTraversing(areaCode)];
                done := true;
                TallyService(first, found, service, index, [OverflowTraversing(areaCode)]);
                found := whole;
              } else {
                index := index + 1;
                TallyService(first, found, service, index, []);
                found := Extend(found, ServiceNode(service), index, [service], []);
              }
            }
          case Some(AreaEntry(child, childEnd)) =>
            if childEnd < child {
              TakeNothing(card, areaCode, end, first, found);
              warnings := warnings + [EndPrecedesStart(child, childEnd)];
              done := true;
              found := whole;
            } else if child < areaCode || childEnd > end {
              TakeNothing(card, areaCode, end, first, found);
              done := true;
              found := whole;
            } else if index == LAST_INDEX {
              TakeNothing(card, areaCode, end, first, found);
              warnings := warnings + [OverflowDescending(child)];
              done := true;
              found := whole;
            } else {
              TakeArea(card, areaCode, end, found, child, childEnd);
              ghost var below := WalkArea(card, child, childEnd, index + 1);
              JoinNext(ExtendArea(found, child, childEnd, below), WalkArea(card, areaCode, end, below.next));
              var inner := CollectArea(child, childEnd, index + 1);
              if inner.None? {
                return None;
              }
              var (childArea, nextIndex) := inner.value;
              children := children + [AreaChild(childArea)];
              if nextIndex <= index {
                assert false;
              }
              index := nextIndex;
              TallyArea(first, found, child, childEnd, below);
              found := ExtendArea(found, child, childEnd, below);
            }
        }
      }
      collected := Some((AreaSummary(areaCode, end, children), index));
      RegisterAppend(old(keyRequestCodes), [areaCode], whole.codes);
    }

    /** All areas of the card, and the services outside of them, unless it fails to answer one of the indexes passed. */
    method CollectSystemAreas() returns (collected: Option<(seq<AreaSummary>, seq<ChildSummary>)>)
      requires Valid() && warnings == []
      modifies this
      ensures Valid()
      ensures collected.Some? <==> Answers(0, WalkSystem(card, 0).next)
      ensures collected.Some? ==>
                SystemTally(collected.value.0, collected.value.1, keyRequestCodes, warnings)
                == Gathered(old(keyRequestCodes), WalkSystem(card, 0))
    {
      hide WalkSystem, WalkArea, Gathered, AppendService, Join, Register, Merge, Summaries;
      ghost var whole, found, codes := WalkSystem(card, 0), Walk([], 0, [], []), keyRequestCodes;
      GatherNothing(codes);
      JoinNothing(whole, []);
      var index, done := 0, false;
      var areas, systemServices := [], [];
      while !done
        invariant Valid() && 0 <= index == found.next
        invariant whole == if done then found else Join(found, WalkSystem(card, index))
        invariant SystemTally(areas, systemServices, keyRequestCodes, warnings) == Gathered(codes, found)
        invariant forall i: u16 | i < index :: !fails(i)
        invariant done ==> !fails(index)
        decreases !done, 0x1_0000 - index as int
      {
        JoinNext(found, WalkSystem(card, index));
        if fails(index) {
          return None;
        }
        match card(index) {
          case None =>
            done := true;
            PassEnd(card, codes, found);
            assert found.warnings + [] == found.warnings;
          case Some(AreaEntry(code, end)) =>
            if index == LAST_INDEX {
              warnings := warnings + [OverflowDescending(code)];
              done := true;
              PassEnd(card, codes, found);
              found := found.(warnings := found.warnings + [OverflowDescending(code)]);
            } else {
              PassArea(card, codes, found, index, code, end);
              ghost var below := WalkArea(card, code, end, index + 1);
              JoinNext(ExtendArea(found, code, end, below), WalkSystem(card, below.next));
              var inner := CollectArea(code, end, index + 1);
              if inner.None? {
                return None;
              }
              var (area, nextIndex) := inner.value;
              areas := areas + [area];
              if nextIndex <= index {
                assert false;
              }
              index := nextIndex;
              found := ExtendArea(found, code, end, below);
            }
          case Some(ServiceEntry(service)) =>
            warnings := warnings + [NoParentArea(service, index)];
            RegisterServiceCode(service);
            systemServices := AppendServiceChild(systemServices, service);
            if index == LAST_INDEX {
              warnings := warnings + [OverflowAtSystemLevel];
              done := true;
              PassLastService(card, codes, found, service);
              ghost var more := [NoParentArea(service, index), OverflowAtSystemLevel];
              found := Extend(found, ServiceNode(service), index, [service], more);
            } else {
              PassService(card, codes, found, index, service);
              found := Extend(found, ServiceNode(service), index + 1, [service], [NoParentArea(service, index)]);
              index := index + 1;
            }
        }
      }
      collected := Some((areas, systemServices));
    }
  }
}
