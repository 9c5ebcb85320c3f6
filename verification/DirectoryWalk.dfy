/**
 Rebuilding the nesting of a card's areas and services from its flat directory.

 The card answers each 16-bit index with an entry or with none. The walk descends
 into an area entry and takes what follows as the area's children for as long as
 their codes lie in its range.
 */
module DirectoryWalk {
  import opened Bytes
  import opened Wrappers
  import opened ServiceCodes
  import opened AreaTree

  const LAST_INDEX: u16 := 0xFFFF

  type Card = u16 -> Option<DirectoryEntry>

  /** What the walk finds, before services are grouped. */
  datatype Node = AreaNode(code: u16, end: u16, children: seq<Node>) | ServiceNode(code: u16)

  datatype Warning =
    | OverflowDescending(areaCode: u16)
    | OverflowTraversing(areaCode: u16)
    | EndPrecedesStart(areaCode: u16, end: u16)
    | NoParentArea(serviceCode: u16, index: u16)
    | OverflowAtSystemLevel

  /** The nodes found, the index after them, the codes met in order, and the warnings. */
  datatype Walk = Walk(nodes: seq<Node>, next: u16, codes: seq<u16>, warnings: seq<Warning>)
  {
    /** This walk with `node` found before everything else. */
    function After(node: Node, nodeCodes: seq<u16>, nodeWarnings: seq<Warning>): Walk {
      Walk([node] + nodes, next, nodeCodes + codes, nodeWarnings + warnings)
    }
  }

  // -------------------------------------------------------------------- the walk

  /** Whether an area of this range takes the entry as its own. */
  predicate Captures(code: u16, end: u16, entry: DirectoryEntry) {
    Inside(entry, code, end) && (entry.AreaEntry? ==> entry.areaCode <= entry.end)
  }

  /** The children of an area, starting at `index`. */
  function WalkArea(card: Card, code: u16, end: u16, index: u16): (walk: Walk)
    ensures walk.next >= index
    decreases 0x1_0000 - index
  {
    match card(index)
    case None => Walk([], index, [], [])
    case Some(ServiceEntry(service)) =>
      if !Inside(ServiceEntry(service), code, end) then Walk([], index, [], [])
      else if index == LAST_INDEX then Walk([ServiceNode(service)], index, [service], [OverflowTraversing(code)])
      else WalkArea(card, code, end, index + 1).After(ServiceNode(service), [service], [])
    case Some(AreaEntry(child, childEnd)) =>
      if childEnd < child then Walk([], index, [], [EndPrecedesStart(child, childEnd)])
      else if !Inside(AreaEntry(child, childEnd), code, end) then Walk([], index, [], [])
      else if index == LAST_INDEX then Walk([], index, [], [OverflowDescending(child)])
      else
        var below := WalkArea(card, child, childEnd, index + 1);
        WalkArea(card, code, end, below.next)
        .After(AreaNode(child, childEnd, below.nodes), [child] + below.codes, below.warnings)
  }

  /** The nodes of the whole card, starting at `index`. */
  function WalkSystem(card: Card, index: u16): (walk: Walk)
    ensures walk.next >= index
    decreases 0x1_0000 - index
  {
    match card(index)
    case None => Walk([], index, [], [])
    case Some(AreaEntry(code, end)) =>
      if index == LAST_INDEX then Walk([], index, [], [OverflowDescending(code)])
      else
        var below := WalkArea(card, code, end, index + 1);
        WalkSystem(card, below.next).After(AreaNode(code, end, below.nodes), [code] + below.codes, below.warnings)
    case Some(ServiceEntry(service)) =>
      if index == LAST_INDEX then
        Walk([ServiceNode(service)], index, [service], [NoParentArea(service, index), OverflowAtSystemLevel])
      else WalkSystem(card, index + 1).After(ServiceNode(service), [service], [NoParentArea(service, index)])
  }

  // ------------------------------------------------------------------- grouping

  /** An area as the dump reports it, with its services grouped by number. */
  datatype AreaSummary = AreaSummary(code: u16, end: u16, children: seq<ChildSummary>)
  datatype ChildSummary = AreaChild(area: AreaSummary) | ServiceGroup(number: u16, services: seq<u16>)

  predicate HasNumber(child: ChildSummary, number: u16) {
    child.ServiceGroup? && child.number == number
  }

  function Own(child: ChildSummary, number: u16): seq<u16> {
    if HasNumber(child, number) then child.services else []
  }

  function Other(child: ChildSummary, number: u16): (other: seq<ChildSummary>)
    ensures |other| <= 1
  {
    if HasNumber(child, number) then [] else [child]
  }

  /** The services of the groups of one number, in order. */
  function Collect(children: seq<ChildSummary>, number: u16): seq<u16> {
    if children == [] then [] else Own(children[0], number) + Collect(children[1..], number)
  }

  /** The children but for the groups of one number. */
  function Without(children: seq<ChildSummary>, number: u16): (rest: seq<ChildSummary>)
    ensures |rest| <= |children|
  {
    if children == [] then [] else Other(children[0], number) + Without(children[1..], number)
  }

  /** Each area where it stands, and all services of a number where the first of them stands. */
  function Merge(children: seq<ChildSummary>): seq<ChildSummary>
    decreases |children|
  {
    if children == [] then []
    else
      match children[0]
      case AreaChild(_) => [children[0]] + Merge(children[1..])
      case ServiceGroup(number, services) =>
        [ServiceGroup(number, services + Collect(children[1..], number))] + Merge(Without(children[1..], number))
  }

  function Summary(node: Node): AreaSummary
    requires node.AreaNode?
    decreases node, 0
  {
    AreaSummary(node.code, node.end, Merge(Summaries(node.children)))
  }

  /** The nodes one by one, each service a group of its own. */
  function Summaries(nodes: seq<Node>): (children: seq<ChildSummary>)
    ensures |children| == |nodes|
    decreases nodes, 1
  {
    if nodes == [] then []
    else
      [match nodes[0]
       case AreaNode(_, _, _) => AreaChild(Summary(nodes[0]))
       case ServiceNode(code) => ServiceGroup(Number(code), [code])]
      + Summaries(nodes[1..])
  }

  /** The position of the group of a number. */
  function FindGroup(children: seq<ChildSummary>, number: u16): (i: nat)
    ensures i <= |children|
    ensures i < |children| ==> HasNumber(children[i], number)
  {
    if children == [] then 0
    else if HasNumber(children[0], number) then 0
    else 1 + FindGroup(children[1..], number)
  }

  /** Adds a service to the group of its number, or a new group behind all others. */
  function AppendService(children: seq<ChildSummary>, code: u16): seq<ChildSummary> {
    var i := FindGroup(children, Number(code));
    if i < |children| then children[i := children[i].(services := children[i].services + [code])]
    else children + [ServiceGroup(Number(code), [code])]
  }

  lemma {:induction false} CollectAppend(children: seq<ChildSummary>, child: ChildSummary, number: u16)
    ensures Collect(children + [child], number) == Collect(children, number) + Own(child, number)
    decreases |children|
  {
    var all := children + [child];
    if children == [] {
      assert all[0] == child && all[1..] == [];
    } else {
      var rest := children[1..];
      assert all[0] == children[0] && all[1..] == rest + [child];
      CollectAppend(rest, child, number);
      var own := Own(children[0], number);
      assert own + (Collect(rest, number) + Own(child, number)) == own + Collect(rest, number) + Own(child, number);
    }
  }

  lemma {:induction false} WithoutAppend(children: seq<ChildSummary>, child: ChildSummary, number: u16)
    ensures Without(children + [child], number) == Without(children, number) + Other(child, number)
    decreases |children|
  {
    var all := children + [child];
    if children == [] {
      assert all[0] == child && all[1..] == [];
    } else {
      var rest := children[1..];
      assert all[0] == children[0] && all[1..] == rest + [child];
      WithoutAppend(rest, child, number);
      var other := Other(children[0], number);
      assert other + (Without(rest, number) + Other(child, number))
             == other + Without(rest, number) + Other(child, number);
    }
  }

  /** Appending to the front of what is merged later is appending to what is merged. */
  lemma AppendBehind(first: ChildSummary, children: seq<ChildSummary>, code: u16)
    requires !HasNumber(first, Number(code))
    ensures AppendService([first] + children, code) == [first] + AppendService(children, code)
  {
    assert ([first] + children)[1..] == children;
  }

  lemma AppendToFirst(group: ChildSummary, children: seq<ChildSummary>, code: u16)
    requires HasNumber(group, Number(code))
    ensures AppendService([group] + children, code)
            == [ServiceGroup(group.number, group.services + [code])] + children
  {
    assert FindGroup([group] + children, Number(code)) == 0;
  }

  /** The services of a group, and of all later groups of its number, end up in the group. */
  lemma MergeGroup(group: ChildSummary, rest: seq<ChildSummary>)
    requires group.ServiceGroup?
    ensures Merge([group] + rest)
            == [ServiceGroup(group.number, group.services + Collect(rest, group.number))]
               + Merge(Without(rest, group.number))
  {
    assert ([group] + rest)[1..] == rest;
  }

  /** Grouping on the way, as the walk does it, comes to the same as grouping at the end. */
  lemma {:induction false} MergeService(children: seq<ChildSummary>, code: u16)
    ensures Merge(children + [ServiceGroup(Number(code), [code])]) == AppendService(Merge(children), code)
    decreases |children|, 1
  {
    var group := ServiceGroup(Number(code), [code]);
    var all := children + [group];
    if children == [] {
      MergeGroup(group, []);
      assert all == [group] + [];
      assert [code] + Collect([], Number(code)) == [code];
    } else {
      var rest := children[1..];
      assert children == [children[0]] + rest;
      assert all == [children[0]] + (rest + [group]);
      match children[0]
      case AreaChild(_) =>
        assert all[1..] == rest + [group];
        MergeService(rest, code);
        AppendBehind(children[0], Merge(rest), code);
      case ServiceGroup(number, _) => MergeServiceBehind(children[0], rest, code);
    }
  }

  lemma {:induction false} MergeServiceBehind(first: ChildSummary, rest: seq<ChildSummary>, code: u16)
    requires first.ServiceGroup?
    ensures Merge([first] + (rest + [ServiceGroup(Number(code), [code])])) == AppendService(Merge([first] + rest), code)
    decreases |rest| + 1, 0
  {
    hide Merge, Collect, Without, AppendService, Number;
    var number, group := first.number, ServiceGroup(Number(code), [code]);
    MergeGroup(first, rest);
    MergeGroup(first, rest + [group]);
    CollectAppend(rest, group, number);
    WithoutAppend(rest, group, number);
    var merged := ServiceGroup(number, first.services + Collect(rest, number));
    var behind := Merge(Without(rest, number));
    if number == Number(code) {
      assert Without(rest, number) + [] == Without(rest, number);
      assert first.services + (Collect(rest, number) + [code]) == merged.services + [code];
      AppendToFirst(merged, behind, code);
    } else {
      assert first.services + (Collect(rest, number) + []) == merged.services;
      MergeService(Without(rest, number), code);
      AppendBehind(merged, behind, code);
    }
  }

  lemma {:induction false} MergeArea(children: seq<ChildSummary>, area: AreaSummary)
    ensures Merge(children + [AreaChild(area)]) == Merge(children) + [AreaChild(area)]
    decreases |children|
  {
    var all := children + [AreaChild(area)];
    if children == [] {
      assert all[1..] == [];
    } else {
      var rest := children[1..];
      assert all[1..] == rest + [AreaChild(area)];
      match children[0]
      case AreaChild(_) => MergeArea(rest, area);
      case ServiceGroup(number, services) =>
        CollectAppend(rest, AreaChild(area), number);
        WithoutAppend(rest, AreaChild(area), number);
        MergeArea(Without(rest, number), area);
        var first := ServiceGroup(number, services + Collect(rest, number));
        assert Collect(rest, number) + [] == Collect(rest, number);
        assert Merge(all) == [first] + (Merge(Without(rest, number)) + [AreaChild(area)]);
    }
  }

  // ------------------------------------------------------------ requested codes

  /** Adds the codes that are not there yet, in order. */
  function Register(codes: seq<u16>, more: seq<u16>): seq<u16>
    decreases |more|
  {
    if more == [] then codes
    else Register(if more[0] in codes then codes else codes + [more[0]], more[1..])
  }

  lemma {:induction false} RegisterAppend(codes: seq<u16>, a: seq<u16>, b: seq<u16>)
    ensures Register(codes, a + b) == Register(Register(codes, a), b)
    decreases |a|
  {
    if a == [] {
      assert a + b == b;
    } else {
      assert (a + b)[1..] == a[1..] + b;
      RegisterAppend(if a[0] in codes then codes else codes + [a[0]], a[1..], b);
    }
  }

  ghost predicate Distinct(codes: seq<u16>) {
    forall i, j | 0 <= i < j < |codes| :: codes[i] != codes[j]
  }

  /** The codes requested are those met, each once. */
  lemma {:induction false} RegisterIsDistinct(codes: seq<u16>, more: seq<u16>)
    requires Distinct(codes)
    ensures Distinct(Register(codes, more))
    ensures forall c :: c in Register(codes, more) <==> c in codes || c in more
    decreases |more|
  {
    if more != [] {
      var next := if more[0] in codes then codes else codes + [more[0]];
      RegisterIsDistinct(next, more[1..]);
      assert forall c :: c in more <==> c == more[0] || c in more[1..];
    }
  }

  // ---------------------------------------------------------------- the grouping

  /** The numbers of the groups in order. */
  function Heads(children: seq<ChildSummary>): seq<u16> {
    if children == [] then []
    else (if children[0].ServiceGroup? then [children[0].number] else []) + Heads(children[1..])
  }

  function AreaChildren(children: seq<ChildSummary>): seq<AreaSummary> {
    if children == [] then []
    else (if children[0].AreaChild? then [children[0].area] else []) + AreaChildren(children[1..])
  }

  function Remove(codes: seq<u16>, code: u16): (rest: seq<u16>)
    ensures |rest| <= |codes|
  {
    if codes == [] then [] else (if codes[0] == code then [] else [codes[0]]) + Remove(codes[1..], code)
  }

  lemma {:induction false} WithoutKeepsOthers(children: seq<ChildSummary>, number: u16)
    ensures Heads(Without(children, number)) == Remove(Heads(children), number)
    ensures AreaChildren(Without(children, number)) == AreaChildren(children)
    ensures forall n :: Collect(Without(children, number), n) == if n == number then [] else Collect(children, n)
    decreases |children|
  {
    if children != [] {
      var rest := children[1..];
      WithoutKeepsOthers(rest, number);
      if children[0].ServiceGroup? {
        assert Heads(children) == [children[0].number] + Heads(rest);
        assert Heads(children)[1..] == Heads(rest);
      } else {
        assert Heads(children) == [] + Heads(rest);
        assert Heads(children) == Heads(rest);
      }
      if HasNumber(children[0], number) {
        assert Without(children, number) == [] + Without(rest, number) == Without(rest, number);
      } else {
        assert Without(children, number) == [children[0]] + Without(rest, number);
        assert Without(children, number)[1..] == Without(rest, number);
      }
    }
  }

  lemma {:induction false} RegisterBehind(number: u16, codes: seq<u16>, more: seq<u16>)
    requires number !in codes
    ensures Register([number] + codes, more) == [number] + Register(codes, Remove(more, number))
    decreases |more|
  {
    if more != [] {
      var rest := Remove(more[1..], number);
      if more[0] == number {
        assert Remove(more, number) == [] + rest == rest;
        RegisterBehind(number, codes, more[1..]);
      } else {
        assert Remove(more, number) == [more[0]] + rest;
        assert Remove(more, number)[1..] == rest;
        if more[0] in codes {
          RegisterBehind(number, codes, more[1..]);
        } else {
          assert [number] + codes + [more[0]] == [number] + (codes + [more[0]]);
          RegisterBehind(number, codes + [more[0]], more[1..]);
        }
      }
    }
  }

  /**
   Grouping loses nothing: the areas stay in order, every number keeps its services in
   order, and each number has one group, in the order in which the numbers first appear.
   */
  lemma {:induction false} GroupingMeans(children: seq<ChildSummary>)
    ensures AreaChildren(Merge(children)) == AreaChildren(children)
    ensures forall n :: Collect(Merge(children), n) == Collect(children, n)
    ensures Heads(Merge(children)) == Register([], Heads(children))
    decreases |children|
  {
    if children != [] {
      var rest := children[1..];
      match children[0]
      case AreaChild(area) =>
        GroupingMeans(rest);
        assert Merge(children)[1..] == Merge(rest);
        assert Heads(children) == [] + Heads(rest) == Heads(rest);
      case ServiceGroup(number, services) =>
        var first := ServiceGroup(number, services + Collect(rest, number));
        var behind := Merge(Without(rest, number));
        assert Merge(children) == [first] + behind;
        assert Merge(children)[1..] == behind;
        WithoutKeepsOthers(rest, number);
        GroupingMeans(Without(rest, number));
        assert Collect(Merge(children), number) == first.services + [];
        assert Heads(children) == [number] + Heads(rest);
        assert Heads(children)[1..] == Heads(rest);
        var none: seq<u16> := [];
        RegisterBehind(number, none, Heads(rest));
        assert none + [number] == [number] + none == [number];
        assert Register(none, Heads(children)) == Register(none + [number], Heads(rest));
    }
  }
}
