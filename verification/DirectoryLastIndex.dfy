/** How often the walk over a card's directory uses the last index, FFFFh. */
module DirectoryLastIndex {
  import opened Bytes
  import opened Wrappers
  import opened AreaTree
  import opened DirectoryWalk
  import opened DirectoryRebuild

  // --------------------------------------------------------------- what is captured

  /** Whether there is an entry at the index that an area of this range would take. */
  predicate Takes(card: Card, code: u16, end: u16, index: u16) {
    card(index).Some? && Captures(code, end, card(index).value)
  }

  /** Whether an area of this range would take every entry from `index` on. */
  ghost predicate TakesAll(card: Card, code: u16, end: u16, index: u16) {
    forall i: u16 | index <= i :: Takes(card, code, end, i)
  }

  predicate LastIsService(card: Card) {
    card(LAST_INDEX).Some? && card(LAST_INDEX).value.ServiceEntry?
  }

  /** An area entry whose range takes every entry behind it. */
  ghost predicate Encloses(card: Card, index: u16) {
    && index < LAST_INDEX && card(index).Some? && card(index).value.AreaEntry?
    && TakesAll(card, card(index).value.areaCode, card(index).value.end, index + 1)
  }

  /** How many area entries from `index` on take every entry behind them. */
  ghost function Enclosing(card: Card, index: u16): nat
    decreases 0x1_0000 - index
  {
    (if Encloses(card, index) then 1 else 0) + if index == LAST_INDEX then 0 else Enclosing(card, index + 1)
  }

  lemma {:induction false} SkipOthers(card: Card, index: u16, next: u16)
    requires index <= next
    requires forall i: u16 | index <= i < next :: !Encloses(card, i)
    ensures Enclosing(card, index) == Enclosing(card, next)
    decreases next - index
  {
    if index < next {
      SkipOthers(card, index + 1, next);
    }
  }

  lemma {:induction false} SomeEncloses(card: Card, index: u16)
    ensures Enclosing(card, index) > 0 <==> exists i: u16 :: index <= i && Encloses(card, i)
    decreases 0x1_0000 - index
  {
    if index < LAST_INDEX {
      SomeEncloses(card, index + 1);
      if Enclosing(card, index + 1) > 0 {
        var i: u16 :| index + 1 <= i && Encloses(card, i);
        assert index <= i;
      }
    }
  }

  lemma TakesInside(card: Card, code: u16, end: u16, child: u16, childEnd: u16, index: u16)
    requires Takes(card, child, childEnd, index) && code <= child && childEnd <= end
    ensures Takes(card, code, end, index)
  {
  }

  /** An area's walk passes only entries that the area takes. */
  lemma {:induction false} PassedAreTaken(card: Card, code: u16, end: u16, index: u16)
    ensures forall i: u16 | index <= i < WalkArea(card, code, end, index).next :: Takes(card, code, end, i)
    decreases 0x1_0000 - index
  {
    match card(index)
    case None =>
    case Some(ServiceEntry(service)) =>
      if Inside(ServiceEntry(service), code, end) && index < LAST_INDEX {
        PassedAreTaken(card, code, end, index + 1);
      }
    case Some(AreaEntry(child, childEnd)) =>
      if child <= childEnd && Inside(AreaEntry(child, childEnd), code, end) && index < LAST_INDEX {
        var below := WalkArea(card, child, childEnd, index + 1);
        PassedAreTaken(card, child, childEnd, index + 1);
        PassedAreTaken(card, code, end, below.next);
        forall i: u16 | index <= i < WalkArea(card, code, end, index).next
          ensures Takes(card, code, end, i)
        {
          if index < i < below.next {
            TakesInside(card, code, end, child, childEnd, i);
          }
        }
      }
  }

  // ----------------------------------------------------------------- the last index

  /** How many entries a walk lists beyond those of the indexes it passed: repeats of the last. */
  function Repeats(walk: Walk, index: u16): int {
    |Flatten(walk.nodes)| - (walk.next - index)
  }

  /** What the last index contributes to a walk that passes everything before it. */
  ghost function AtLast(card: Card, index: u16): nat {
    if LastIsService(card) then 1 + Enclosing(card, index) else 0
  }

  lemma RepeatsOfArea(code: u16, end: u16, index: u16, below: Walk, rest: Walk, warnings: seq<Warning>)
    requires index < LAST_INDEX
    ensures Repeats(rest.After(AreaNode(code, end, below.nodes), [code] + below.codes, warnings), index)
            == Repeats(below, index + 1) + Repeats(rest, below.next)
  {
    FlattenFirst(AreaNode(code, end, below.nodes), rest.nodes);
  }

  lemma RepeatsOfService(service: u16, index: u16, rest: Walk, warnings: seq<Warning>)
    ensures Repeats(rest.After(ServiceNode(service), [service], warnings), index) == Repeats(rest, index) + 1
  {
    FlattenFirst(ServiceNode(service), rest.nodes);
  }

  /** Where a child area's walk does not reach the last service, no entry it passed encloses the rest. */
  lemma NoneEncloses(card: Card, code: u16, end: u16, index: u16, next: u16)
    requires index <= next && !TakesAll(card, code, end, index)
    requires forall i: u16 | index <= i < next :: Takes(card, code, end, i)
    ensures forall i: u16 | index <= i < next :: !Encloses(card, i)
  {
    forall i: u16 | index <= i < next
      ensures !Encloses(card, i)
    {
      if Encloses(card, i) {
        var area := card(i).value;
        assert Takes(card, code, end, i);
        forall j: u16 | index <= j
          ensures Takes(card, code, end, j)
        {
          if j >= next {
            TakesInside(card, code, end, area.areaCode, area.end, j);
          }
        }
      }
    }
  }

  /**
   An area's walk uses the last index once for itself and once for every area entry
   that takes everything behind it, if the area takes everything and a service is last.
   */
  lemma {:induction false} AreaRepeats(card: Card, code: u16, end: u16, index: u16)
    ensures Repeats(WalkArea(card, code, end, index), index)
            == if TakesAll(card, code, end, index) then AtLast(card, index) else 0
    ensures TakesAll(card, code, end, index) && LastIsService(card) ==>
              WalkArea(card, code, end, index).next == LAST_INDEX
    decreases 0x1_0000 - index
  {
    if !Takes(card, code, end, index) {
      AreaStops(card, code, end, index);
    } else if index == LAST_INDEX {
      AreaEnds(card, code, end);
    } else if card(index).value.ServiceEntry? {
      AreaRepeats(card, code, end, index + 1);
      AreaPassesService(card, code, end, index);
    } else {
      var child := card(index).value;
      var below := WalkArea(card, child.areaCode, child.end, index + 1);
      AreaRepeats(card, child.areaCode, child.end, index + 1);
      AreaRepeats(card, code, end, below.next);
      AreaPassesArea(card, code, end, index);
    }
  }

  lemma AreaStops(card: Card, code: u16, end: u16, index: u16)
    requires !Takes(card, code, end, index)
    ensures Repeats(WalkArea(card, code, end, index), index) == 0 && !TakesAll(card, code, end, index)
  {
  }

  lemma AreaEnds(card: Card, code: u16, end: u16)
    requires Takes(card, code, end, LAST_INDEX)
    ensures TakesAll(card, code, end, LAST_INDEX) && WalkArea(card, code, end, LAST_INDEX).next == LAST_INDEX
    ensures Repeats(WalkArea(card, code, end, LAST_INDEX), LAST_INDEX) == AtLast(card, LAST_INDEX)
  {
    if LastIsService(card) {
      var node := ServiceNode(card(LAST_INDEX).value.code);
      FlattenFirst(node, []);
      assert [node] + [] == [node];
    }
  }

  lemma AreaPassesService(card: Card, code: u16, end: u16, index: u16)
    requires index < LAST_INDEX && Takes(card, code, end, index) && card(index).value.ServiceEntry?
    ensures var walk, rest := WalkArea(card, code, end, index), WalkArea(card, code, end, index + 1);
            walk.next == rest.next && Repeats(walk, index) == Repeats(rest, index + 1)
    ensures TakesAll(card, code, end, index) <==> TakesAll(card, code, end, index + 1)
    ensures AtLast(card, index) == AtLast(card, index + 1)
  {
    RepeatsOfService(card(index).value.code, index, WalkArea(card, code, end, index + 1), []);
  }

  lemma AreaPassesArea(card: Card, code: u16, end: u16, index: u16)
    requires index < LAST_INDEX && Takes(card, code, end, index) && card(index).value.AreaEntry?
    requires var child := card(index).value;
             var below := WalkArea(card, child.areaCode, child.end, index + 1);
             && (Repeats(below, index + 1)
                 == if TakesAll(card, child.areaCode, child.end, index + 1) then AtLast(card, index + 1) else 0)
             && (TakesAll(card, child.areaCode, child.end, index + 1) && LastIsService(card) ==>
                   below.next == LAST_INDEX)
             && (Repeats(WalkArea(card, code, end, below.next), below.next)
                 == if TakesAll(card, code, end, below.next) then AtLast(card, below.next) else 0)
             && (TakesAll(card, code, end, below.next) && LastIsService(card) ==>
                   WalkArea(card, code, end, below.next).next == LAST_INDEX)
    ensures Repeats(WalkArea(card, code, end, index), index)
            == if TakesAll(card, code, end, index) then AtLast(card, index) else 0
    ensures TakesAll(card, code, end, index) && LastIsService(card) ==>
              WalkArea(card, code, end, index).next == LAST_INDEX
  {
    var child := card(index).value;
    var below := WalkArea(card, child.areaCode, child.end, index + 1);
    var rest := WalkArea(card, code, end, below.next);
    WalkIntoArea(card, code, end, index, child.areaCode, child.end);
    RepeatsOfArea(child.areaCode, child.end, index, below, rest, below.warnings);
    PassedAreTaken(card, child.areaCode, child.end, index + 1);
    hide WalkArea, Flatten, Repeats;
    ChildAddsUp(card, child.areaCode, child.end, index, below.next);
    forall i: u16 | index <= i < below.next
      ensures Takes(card, code, end, i)
    {
      if i > index {
        TakesInside(card, code, end, child.areaCode, child.end, i);
      }
    }
    if TakesAll(card, child.areaCode, child.end, index + 1) {
      TakesInside(card, code, end, child.areaCode, child.end, LAST_INDEX);
    }
  }

  /** The last index behind a child area: taken by it and then by the one around it, or not by it. */
  lemma ChildAddsUp(card: Card, code: u16, end: u16, index: u16, next: u16)
    requires index < LAST_INDEX && index + 1 <= next && card(index) == Some(AreaEntry(code, end))
    requires forall i: u16 | index < i < next :: Takes(card, code, end, i)
    requires TakesAll(card, code, end, index + 1) && LastIsService(card) ==> next == LAST_INDEX
    ensures (if TakesAll(card, code, end, index + 1) then AtLast(card, index + 1) else 0) + AtLast(card, next)
            == AtLast(card, index)
  {
    if TakesAll(card, code, end, index + 1) {
      assert Encloses(card, index);
      assert Enclosing(card, LAST_INDEX) == 0;
    } else {
      assert !Encloses(card, index);
      NoneEncloses(card, code, end, index + 1, next);
      SkipOthers(card, index + 1, next);
    }
  }

  // ------------------------------------------------------------------ the whole card

  /** There is an entry at every index from `index` on. */
  ghost predicate NoGap(card: Card, index: u16) {
    forall i: u16 | index <= i :: card(i).Some?
  }

  /** There are no gaps behind an area entry exactly if there are none behind what its walk passes. */
  lemma NoGapBehind(card: Card, code: u16, end: u16, index: u16, next: u16)
    requires index < next && card(index).Some?
    requires forall i: u16 | index < i < next :: Takes(card, code, end, i)
    ensures NoGap(card, index) <==> NoGap(card, next)
    ensures TakesAll(card, code, end, index + 1) ==> NoGap(card, index)
  {
    forall i: u16 | index <= i < next
      ensures card(i).Some?
    {
      if index < i {
        assert Takes(card, code, end, i);
      }
    }
    if TakesAll(card, code, end, index + 1) {
      forall i: u16 | index <= i
        ensures card(i).Some?
      {
        if index < i {
          assert Takes(card, code, end, i);
        }
      }
    }
  }

  lemma SystemPassesArea(card: Card, index: u16)
    requires index < LAST_INDEX && card(index).Some? && card(index).value.AreaEntry?
    requires var below := WalkArea(card, card(index).value.areaCode, card(index).value.end, index + 1);
             Repeats(WalkSystem(card, below.next), below.next)
             == if NoGap(card, below.next) then AtLast(card, below.next) else 0
    ensures Repeats(WalkSystem(card, index), index) == if NoGap(card, index) then AtLast(card, index) else 0
  {
    var code, end := card(index).value.areaCode, card(index).value.end;
    var below := WalkArea(card, code, end, index + 1);
    SystemTakesArea(card, index);
    hide WalkArea, WalkSystem, Flatten, Repeats;
    RepeatsOfArea(code, end, index, below, WalkSystem(card, below.next), below.warnings);
    PassedAreTaken(card, code, end, index + 1);
    AreaRepeats(card, code, end, index + 1);
    hide TakesAll, NoGap, AtLast;
    ChildAddsUp(card, code, end, index, below.next);
    NoGapBehind(card, code, end, index, below.next);
    LastIsZero(card, index + 1);
    LastIsZero(card, below.next);
  }

  lemma SystemTakesArea(card: Card, index: u16)
    requires index < LAST_INDEX && card(index).Some? && card(index).value.AreaEntry?
    ensures var code, end := card(index).value.areaCode, card(index).value.end;
            var below := WalkArea(card, code, end, index + 1);
            WalkSystem(card, index)
            == WalkSystem(card, below.next)
               .After(AreaNode(code, end, below.nodes), [code] + below.codes, below.warnings)
  {
  }

  lemma LastIsZero(card: Card, index: u16)
    ensures !LastIsService(card) ==> AtLast(card, index) == 0
  {
  }

  /**
   The walk over all of a card uses the last index once for every area entry that takes
   everything behind it and once more, if no index is without an entry and a service is last.
   */
  lemma {:induction false} SystemRepeats(card: Card, index: u16)
    ensures Repeats(WalkSystem(card, index), index) == if NoGap(card, index) then AtLast(card, index) else 0
    decreases 0x1_0000 - index
  {
    if card(index).None? {
      assert !NoGap(card, index);
    } else if index == LAST_INDEX {
      SystemEnds(card);
    } else if card(index).value.AreaEntry? {
      SystemRepeats(card, WalkArea(card, card(index).value.areaCode, card(index).value.end, index + 1).next);
      SystemPassesArea(card, index);
    } else {
      SystemRepeats(card, index + 1);
      SystemPassesService(card, index);
    }
  }

  lemma SystemEnds(card: Card)
    requires card(LAST_INDEX).Some?
    ensures NoGap(card, LAST_INDEX) && Repeats(WalkSystem(card, LAST_INDEX), LAST_INDEX) == AtLast(card, LAST_INDEX)
  {
    if LastIsService(card) {
      var node := ServiceNode(card(LAST_INDEX).value.code);
      FlattenFirst(node, []);
      assert [node] + [] == [node];
    }
  }

  lemma SystemPassesService(card: Card, index: u16)
    requires index < LAST_INDEX && card(index).Some? && card(index).value.ServiceEntry?
    ensures Repeats(WalkSystem(card, index), index) == Repeats(WalkSystem(card, index + 1), index + 1)
    ensures NoGap(card, index) <==> NoGap(card, index + 1)
    ensures AtLast(card, index) == AtLast(card, index + 1)
  {
    var service := card(index).value.code;
    RepeatsOfService(service, index, WalkSystem(card, index + 1), [NoParentArea(service, index)]);
  }

  // ------------------------------------------------------------------- each index once

  /** The entries listed from `index` on stand at as many indexes. */
  ghost predicate EachOnce(index: u16, entries: seq<DirectoryEntry>) {
    forall j, k | 0 <= j < k < |entries| :: Step(index, j) != Step(index, k)
  }

  /** Steps from an index repeat the last one exactly when there are more of them than indexes. */
  lemma OnceIfEnoughIndexes(index: u16, entries: seq<DirectoryEntry>)
    ensures EachOnce(index, entries) <==> |entries| <= 0x1_0000 - index
  {
    if |entries| > 0x1_0000 - index {
      var k: nat := LAST_INDEX - index;
      assert Step(index, k) == Step(index, k + 1);
    }
  }

  /**
   The walk over a card uses each index once unless every index has an entry, the last
   one a service, and some area entry takes everything behind it; only the last index is
   then used more often, once more for each such area.
   */
  lemma EachIndexOnce(card: Card)
    ensures EachOnce(0, Flatten(WalkSystem(card, 0).nodes))
            <==> !(NoGap(card, 0) && LastIsService(card) && exists i: u16 :: Encloses(card, i))
  {
    hide WalkSystem, Flatten;
    var walk := WalkSystem(card, 0);
    SystemRepeats(card, 0);
    SystemWalkReads(card, 0);
    SomeEncloses(card, 0);
    OnceIfEnoughIndexes(0, Flatten(walk.nodes));
    if exists i: u16 :: Encloses(card, i) {
      var i: u16 :| Encloses(card, i);
      assert 0 <= i;
    }
  }

  /** A card with one area over everything and a service at every other index. */
  function FullCard(): Card {
    (index: u16) => Some(if index == 0 then AreaEntry(0x0000, 0xFFFE) else ServiceEntry(0x0008))
  }

  /** Its last service is found in the area and again behind it. */
  lemma LastIndexIsUsedTwice()
    ensures !EachOnce(0, Flatten(WalkSystem(FullCard(), 0).nodes))
  {
    hide WalkSystem, Flatten, EachOnce;
    var first: u16 := 0;
    assert FullCard()(first) == Some(AreaEntry(0x0000, 0xFFFE));
    assert TakesAll(FullCard(), 0x0000, 0xFFFE, first + 1);
    assert Encloses(FullCard(), first);
    EachIndexOnce(FullCard());
  }
}
