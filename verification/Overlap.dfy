/**
 Linking overlapping services: services that share a service number manage one
 block store under different access rules, and must be of one kind.
 */
module Overlap {
  import opened Bytes
  import opened Wrappers
  import opened ServiceCodes
  import opened AreaTree

  datatype Group = Group(kind: ServiceKind, store: Store)
  type Registry = map<u16, Group>

  /** Why linking stopped; it panics on a service without a kind. */
  datatype Stop = Rejected(error: ConfigError) | Panicked

  /** A tree or list with its services linked as far as linking got. */
  datatype Linked<T> = Linked(result: T, registry: Registry, stop: Option<Stop>)
  {
    function With<U>(other: U): Linked<U> {
      Linked(other, registry, stop)
    }
  }

  // ---------------------------------------------------------------- specification

  function LinkService(service: Service, registry: Registry): Linked<Service> {
    var number := Number(service.code);
    match Kind(service.code)
    case None => Linked(service, registry, Some(Panicked))
    case Some(kind) =>
      if number in registry then
        var group := registry[number];
        if group.kind != kind then
          Linked(service, registry, Some(Rejected(OverlapKindMismatch(service.code, number, group.kind, kind))))
        else
          Linked(service.(store := group.store), registry, None)
      else
        Linked(service, registry[number := Group(kind, service.store)], None)
  }

  /** The services of a list, in order. */
  function LinkAll(services: seq<Service>, registry: Registry): (linked: Linked<seq<Service>>)
    ensures |linked.result| == |services|
    decreases |services|
  {
    if services == [] then Linked([], registry, None)
    else
      var first := LinkService(services[0], registry);
      if first.stop.Some? then Linked(services, registry, first.stop)
      else
        var rest := LinkAll(services[1..], first.registry);
        rest.With([first.result] + rest.result)
  }

  function LinkArea(area: Area, registry: Registry): Linked<Area>
    decreases area, 1
  {
    var linked := LinkChildren(area.children, registry);
    linked.With(area.(children := linked.result))
  }

  function LinkChild(child: Child, registry: Registry): Linked<Child>
    decreases child, 2
  {
    match child
    case SubArea(area) =>
      var linked := LinkArea(area, registry);
      linked.With(SubArea(linked.result))
    case Leaf(service) =>
      var linked := LinkService(service, registry);
      linked.With(Leaf(linked.result))
  }

  function LinkChildren(children: seq<Child>, registry: Registry): (linked: Linked<seq<Child>>)
    ensures |linked.result| == |children|
    decreases children, 0
  {
    if children == [] then Linked([], registry, None)
    else
      var first := LinkChild(children[0], registry);
      if first.stop.Some? then first.With([first.result] + children[1..])
      else
        var rest := LinkChildren(children[1..], first.registry);
        rest.With([first.result] + rest.result)
  }

  // --------------------------------------------------------------- linking in place

  method SyncOverlappingServices(area: Area, registry: Registry) returns (linked: Linked<Area>)
    ensures linked == LinkArea(area, registry)
    decreases area, 1
  {
    var children, groups := area.children, registry;
    ghost var all := LinkChildren(children, registry);
    assert children[..0] + all.result == all.result && children[0..] == children;
    for i := 0 to |children|
      invariant |children| == |area.children| && children[i..] == area.children[i..]
      invariant all == Resumed(children[..i], area.children[i..], groups)
    {
      ghost var front, ahead := children[..i], area.children[i..];
      assert children[i] == ahead[0] == area.children[i];
      assert ahead[1..] == area.children[i + 1..];
      OneStep(front, ahead, groups);
      var child := SyncChild(children[i], groups);
      Replace(children, i, child.result);
      children, groups := children[i := child.result], child.registry;
      if child.stop.Some? {
        return Linked(area.(children := children), groups, child.stop);
      }
    }
    Finished(children);
    linked := Linked(area.(children := children), groups, None);
  }

  lemma Finished(children: seq<Child>)
    ensures Resumed(children[..|children|], [], map[]).result == children
    ensures children[..|children|] == children
  {
  }

  lemma Replace(children: seq<Child>, i: nat, child: Child)
    requires i < |children|
    ensures var replaced := children[i := child];
            && replaced == children[..i] + [child] + children[i + 1..]
            && replaced[..i + 1] == children[..i] + [child]
            && replaced[i + 1..] == children[i + 1..]
  {
  }

  /** Linking children whose front is already linked. */
  ghost function Resumed(front: seq<Child>, ahead: seq<Child>, registry: Registry): Linked<seq<Child>> {
    var rest := LinkChildren(ahead, registry);
    rest.With(front + rest.result)
  }

  lemma OneStep(front: seq<Child>, ahead: seq<Child>, registry: Registry)
    requires ahead != []
    ensures var step := LinkChild(ahead[0], registry);
            Resumed(front, ahead, registry)
            == if step.stop.Some? then step.With(front + [step.result] + ahead[1..])
               else Resumed(front + [step.result], ahead[1..], step.registry)
  {
    var step := LinkChild(ahead[0], registry);
    var rest := LinkChildren(ahead[1..], step.registry);
    assert front + ([step.result] + ahead[1..]) == front + [step.result] + ahead[1..];
    assert front + ([step.result] + rest.result) == front + [step.result] + rest.result;
  }

  /** The body of the loop over the children. */
  method SyncChild(child: Child, registry: Registry) returns (linked: Linked<Child>)
    ensures linked == LinkChild(child, registry)
    decreases child, 2
  {
    match child {
      case SubArea(area) =>
        var inner := SyncOverlappingServices(area, registry);
        linked := Linked(SubArea(inner.result), inner.registry, inner.stop);
      case Leaf(service) =>
        var number, kind := Number(service.code), Kind(service.code);
        if kind.None? {
          return Linked(child, registry, Some(Panicked));
        }
        if number in registry {
          var group := registry[number];
          if group.kind != kind.value {
            var error := OverlapKindMismatch(service.code, number, group.kind, kind.value);
            return Linked(child, registry, Some(Rejected(error)));
          }
          linked := Linked(Leaf(service.(store := group.store)), registry, None);
        } else {
          linked := Linked(child, registry[number := Group(kind.value, service.store)], None);
        }
    }
  }

  // ------------------------------------------------- the tree as its list of services

  lemma {:induction false} LinkAllAppend(a: seq<Service>, b: seq<Service>, registry: Registry)
    ensures var front := LinkAll(a, registry);
            var back := LinkAll(b, front.registry);
            LinkAll(a + b, registry)
            == if front.stop.Some? then front.With(front.result + b)
               else back.With(front.result + back.result)
    decreases |a|
  {
    if a == [] {
      assert a + b == b;
      assert [] + LinkAll(b, registry).result == LinkAll(b, registry).result;
    } else {
      assert (a + b)[1..] == a[1..] + b;
      var first := LinkService(a[0], registry);
      if first.stop.None? {
        LinkAllAppend(a[1..], b, first.registry);
        var front := LinkAll(a[1..], first.registry);
        var back := LinkAll(b, front.registry);
        assert [first.result] + (front.result + b) == [first.result] + front.result + b;
        assert [first.result] + (front.result + back.result) == [first.result] + front.result + back.result;
      }
    }
  }

  lemma Split(children: seq<Child>)
    requires children != []
    ensures ServicesOf(children) == ServicesOf([children[0]]) + ServicesOf(children[1..])
    ensures DirectoryOf(children) == DirectoryOf([children[0]]) + DirectoryOf(children[1..])
  {
    OneChild(children[0]);
  }

  /** Linking a tree links its services in pre-order and keeps its directory. */
  lemma {:induction false} TreeIsItsList(area: Area, registry: Registry)
    ensures var tree := LinkArea(area, registry);
            tree.With(Services(tree.result)) == LinkAll(Services(area), registry)
            && Directory(tree.result) == Directory(area)
    decreases area, 1
  {
    ChildrenAreTheirList(area.children, registry);
  }

  lemma {:induction false} ChildIsItsList(child: Child, registry: Registry)
    ensures var tree := LinkChild(child, registry);
            tree.With(ServicesOf([tree.result])) == LinkAll(ServicesOf([child]), registry)
            && DirectoryOf([tree.result]) == DirectoryOf([child])
    decreases child, 2
  {
    OneChild(child);
    OneChild(LinkChild(child, registry).result);
    match child
    case SubArea(area) => TreeIsItsList(area, registry);
    case Leaf(service) => assert [service][1..] == [];
  }

  lemma {:induction false} ChildrenAreTheirList(children: seq<Child>, registry: Registry)
    ensures var tree := LinkChildren(children, registry);
            tree.With(ServicesOf(tree.result)) == LinkAll(ServicesOf(children), registry)
            && DirectoryOf(tree.result) == DirectoryOf(children)
    decreases children, 0
  {
    if children != [] {
      var first := LinkChild(children[0], registry);
      Split(children);
      LinkAllAppend(ServicesOf([children[0]]), ServicesOf(children[1..]), registry);
      ChildIsItsList(children[0], registry);
      Split(LinkChildren(children, registry).result);
      if first.stop.None? {
        ChildrenAreTheirList(children[1..], first.registry);
      }
    }
  }

  // --------------------------------------------------- who shares with whom, in a list

  /** What linking looks at in a service. */
  datatype Slot = Slot(number: u16, kind: Option<ServiceKind>, store: Store)

  function SlotOf(service: Service): Slot {
    Slot(Number(service.code), Kind(service.code), service.store)
  }

  function Slots(services: seq<Service>): (slots: seq<Slot>)
    ensures |slots| == |services|
  {
    seq(|services|, i requires 0 <= i < |services| => SlotOf(services[i]))
  }

  /** The first position of a service number, or the length of the list. */
  function First(slots: seq<Slot>, number: u16): (i: nat)
    ensures i <= |slots|
    ensures i < |slots| ==> slots[i].number == number
    ensures forall j | 0 <= j < i :: slots[j].number != number
  {
    if slots == [] then 0
    else if slots[0].number == number then 0
    else 1 + First(slots[1..], number)
  }

  /** The pre-order-first service that shares the number of service `i`. */
  function Owner(slots: seq<Slot>, i: nat): (j: nat)
    requires i < |slots|
    ensures j <= i && slots[j].number == slots[i].number
  {
    First(slots, slots[i].number)
  }

  predicate Clashes(slots: seq<Slot>, i: nat)
    requires i < |slots|
  {
    slots[i].kind != slots[Owner(slots, i)].kind
  }

  /** Service `i` with the block store of the first one of its number. */
  function Owned(services: seq<Service>, i: nat): Service
    requires i < |services|
  {
    services[i].(store := Slots(services)[Owner(Slots(services), i)].store)
  }

  /** The error that names the clash of service `i` with the first one of its number. */
  predicate NamesClash(services: seq<Service>, i: nat, stop: Stop)
    requires i < |services|
  {
    var slots := Slots(services);
    && stop.Rejected? && stop.error.OverlapKindMismatch?
    && stop.error.serviceCode == services[i].code && stop.error.number == slots[i].number
    && Some(stop.error.existing) == slots[Owner(slots, i)].kind && Some(stop.error.added) == slots[i].kind
  }

  ghost predicate IsFirstClash(slots: seq<Slot>, d: nat, i: nat)
    requires d <= i < |slots|
  {
    Clashes(slots, i) && forall j | d <= j < i :: !Clashes(slots, j)
  }

  /** Every service has a kind. */
  ghost predicate KindsDefined(slots: seq<Slot>) {
    forall i | 0 <= i < |slots| :: slots[i].kind.Some?
  }

  /** The services from `d` on, those before `i` with the store of the first of their number. */
  ghost predicate OwnedUpTo(services: seq<Service>, d: nat, i: nat, result: seq<Service>)
    requires d <= i <= |services| && |result| == |services| - d
  {
    forall k | 0 <= k < |result| :: result[k] == if d + k < i then Owned(services, d + k) else services[d + k]
  }

  /** What linking everything from position `d` on amounts to, up to the first clash if there is one. */
  ghost predicate LinkedFrom(services: seq<Service>, d: nat, linked: Linked<seq<Service>>)
    requires d <= |services| && |linked.result| == |services| - d
  {
    match linked.stop
    case None =>
      && (forall i | d <= i < |services| :: !Clashes(Slots(services), i))
      && OwnedUpTo(services, d, |services|, linked.result)
    case Some(stop) =>
      exists i :: d <= i < |services| && IsFirstClash(Slots(services), d, i) && NamesClash(services, i, stop)
                  && OwnedUpTo(services, d, i, linked.result)
  }

  /** The registry holds the first service of each number among the first `d`. */
  ghost predicate Agrees(registry: Registry, slots: seq<Slot>, d: nat)
    requires d <= |slots|
  {
    && (forall i | 0 <= i < d :: slots[i].number in registry)
    && (forall n | n in registry ::
          var i := First(slots, n);
          i < d && slots[i].kind == Some(registry[n].kind) && slots[i].store == registry[n].store)
  }

  /** What the registry says about the next service. */
  lemma NextInRegistry(registry: Registry, slots: seq<Slot>, d: nat)
    requires d < |slots| && slots[d].kind.Some? && Agrees(registry, slots, d)
    ensures var slot, owner := slots[d], slots[Owner(slots, d)];
            if slot.number in registry then
              owner.kind == Some(registry[slot.number].kind) && owner.store == registry[slot.number].store
            else
              owner == slot
  {
    if slots[d].number !in registry {
      assert Owner(slots, d) == d;
    }
  }

  lemma AgreesNext(registry: Registry, slots: seq<Slot>, d: nat)
    requires d < |slots| && slots[d].kind.Some? && Agrees(registry, slots, d)
    ensures var slot := slots[d];
            var next := if slot.number in registry then registry
                        else registry[slot.number := Group(slot.kind.value, slot.store)];
            Agrees(next, slots, d + 1)
  {
    NextInRegistry(registry, slots, d);
  }

  lemma {:induction false} LinkAllMeans(services: seq<Service>, d: nat, registry: Registry)
    requires d <= |services| && KindsDefined(Slots(services)) && Agrees(registry, Slots(services), d)
    ensures LinkedFrom(services, d, LinkAll(services[d..], registry))
    decreases |services| - d
  {
    hide LinkedFrom, OwnedUpTo;
    if d == |services| {
      NothingLeft(services, registry);
    } else {
      var next, slots := LinkService(services[d], registry), Slots(services);
      assert slots[d] == SlotOf(services[d]);
      NextInRegistry(registry, slots, d);
      assert services[d..][1..] == services[d + 1..];
      if next.stop.None? {
        AgreesNext(registry, slots, d);
        LinkAllMeans(services, d + 1, next.registry);
        LinkedOneEarlier(services, d, next.result, LinkAll(services[d + 1..], next.registry));
      } else {
        ClashHere(services, d, registry, next.stop.value);
      }
    }
  }

  lemma NothingLeft(services: seq<Service>, registry: Registry)
    ensures LinkedFrom(services, |services|, Linked([], registry, None))
  {
  }

  lemma ClashHere(services: seq<Service>, d: nat, registry: Registry, stop: Stop)
    requires d < |services| && Clashes(Slots(services), d) && NamesClash(services, d, stop)
    ensures LinkedFrom(services, d, Linked(services[d..], registry, Some(stop)))
  {
    assert IsFirstClash(Slots(services), d, d) && OwnedUpTo(services, d, d, services[d..]);
  }

  lemma LinkedOneEarlier(services: seq<Service>, d: nat, service: Service, rest: Linked<seq<Service>>)
    requires d < |services| && |rest.result| == |services| - d - 1
    requires LinkedFrom(services, d + 1, rest)
    requires !Clashes(Slots(services), d) && service == Owned(services, d)
    ensures LinkedFrom(services, d, rest.With([service] + rest.result))
  {
    if rest.stop.Some? {
      var slots, stop := Slots(services), rest.stop.value;
      var i :| d + 1 <= i < |services| && IsFirstClash(slots, d + 1, i) && NamesClash(services, i, stop)
               && OwnedUpTo(services, d + 1, i, rest.result);
      ClashOneEarlier(slots, d, i);
      OwnedOneEarlier(services, d, i, service, rest.result);
    } else {
      OwnedOneEarlier(services, d, |services|, service, rest.result);
    }
  }

  lemma OwnedOneEarlier(services: seq<Service>, d: nat, i: nat, service: Service, rest: seq<Service>)
    requires d < i <= |services| && |rest| == |services| - d - 1
    requires OwnedUpTo(services, d + 1, i, rest) && service == Owned(services, d)
    ensures OwnedUpTo(services, d, i, [service] + rest)
  {
    var joined := [service] + rest;
    forall k | 0 <= k < |joined|
      ensures joined[k] == if d + k < i then Owned(services, d + k) else services[d + k]
    {
      if k > 0 {
        assert joined[k] == rest[k - 1];
      }
    }
  }

  lemma ClashOneEarlier(slots: seq<Slot>, d: nat, i: nat)
    requires d + 1 <= i < |slots| && IsFirstClash(slots, d + 1, i) && !Clashes(slots, d)
    ensures IsFirstClash(slots, d, i)
  {
  }

  // ------------------------------------------------------------------- the theorems

  /**
   Linking a built tree from scratch never panics. It succeeds exactly when no service
   clashes with the first of its number, whose store then wins, and otherwise names
   the pre-order-first clash. The directory stays as it was.
   */
  lemma LinkingMeans(area: Area)
    requires KindsDefined(Slots(Services(area)))
    ensures |Services(LinkArea(area, map[]).result)| == |Services(area)|
    ensures var linked := LinkArea(area, map[]);
            LinkedFrom(Services(area), 0, linked.With(Services(linked.result)))
    ensures LinkArea(area, map[]).stop.None?
            <==> forall i | 0 <= i < |Services(area)| :: !Clashes(Slots(Services(area)), i)
    ensures Directory(LinkArea(area, map[]).result) == Directory(area)
  {
    var services := Services(area);
    TreeIsItsList(area, map[]);
    LinkAllMeans(services, 0, map[]);
    assert services[0..] == services;
  }

  // --------------------------------------------------------------- linking by raw codes

  /** Two codes of service attributes 8 to 23: both random, both cyclic, or both of a purse. */
  predicate SameKind(a: u16, b: u16) {
    && (a % 64 < 12 <==> b % 64 < 12)
    && (a % 64 < 16 <==> b % 64 < 16)
  }

  /** Numbers and kinds of two services by the arithmetic of their codes. */
  lemma KindsByCode(services: seq<Service>, i: nat, j: nat)
    requires i < |services| && j < |services| && KindsDefined(Slots(services))
    ensures 8 <= services[i].code % 64 < 24
    ensures var slots := Slots(services);
            && (slots[i].number == slots[j].number <==> services[i].code / 64 == services[j].code / 64)
            && (slots[i].kind == slots[j].kind <==> SameKind(services[i].code, services[j].code))
  {
    var a, b := services[i].code, services[j].code;
    assert Slots(services)[i] == SlotOf(services[i]) && Slots(services)[j] == SlotOf(services[j]);
    KindIs(a);
    KindIs(b);
    NumberIs(a, a / 64);
    NumberIs(b, b / 64);
    hide Kind, Number;
  }

  /** Two services of one number and different kinds. */
  ghost predicate Clash(services: seq<Service>, i: nat, j: nat)
    requires i < |services| && j < |services|
  {
    services[i].code / 64 == services[j].code / 64 && !SameKind(services[i].code, services[j].code)
  }

  /** A service clashes with the first of its number exactly if some two of the number clash. */
  lemma ClashesByCode(services: seq<Service>)
    requires KindsDefined(Slots(services))
    ensures (exists k :: 0 <= k < |services| && Clashes(Slots(services), k))
            <==> exists i, j :: 0 <= i < j < |services| && Clash(services, i, j)
  {
    hide Slots, SameKind;
    var slots := Slots(services);
    if i, j :| 0 <= i < j < |services| && Clash(services, i, j) {
      KindsByCode(services, i, j);
      assert Owner(slots, i) == Owner(slots, j);
      assert Clashes(slots, i) || Clashes(slots, j);
    }
    if k :| 0 <= k < |services| && Clashes(slots, k) {
      KindsByCode(services, Owner(slots, k), k);
      assert Clash(services, Owner(slots, k), k) && Owner(slots, k) < k;
    }
  }

  /**
   Linking a built tree, whose services all have attributes 8 to 23, fails exactly if two
   codes with one service number are of different kinds.
   */
  lemma WhenCodesClash(area: Area)
    requires WellFormed(area)
    ensures var services := Services(area);
            && (forall i | 0 <= i < |services| :: 8 <= services[i].code % 64 < 24)
            && (LinkArea(area, map[]).stop.Some?
                <==> exists i, j :: 0 <= i < j < |services| && Clash(services, i, j))
  {
    BuiltTreesHaveKinds(area);
    LinkingMeans(area);
    var services := Services(area);
    ClashesByCode(services);
    forall i | 0 <= i < |services|
      ensures 8 <= services[i].code % 64 < 24
    {
      KindsByCode(services, i, i);
    }
    hide Clashes, Clash, Slots, Services, LinkArea, LinkedFrom, WellFormed;
  }

  /** Once a built tree is linked, services share a store exactly if their codes have one number. */
  lemma WhenCodesShare(area: Area, i: nat, j: nat)
    requires WellFormed(area) && LinkArea(area, map[]).stop.None?
    requires StoresTellNumbers(Uses(Services(area)))
    requires i < |Services(area)| && j < |Services(area)|
    ensures var before, after := Services(area), Services(LinkArea(area, map[]).result);
            && |after| == |before| && after[i].code == before[i].code && after[j].code == before[j].code
            && (after[i].store == after[j].store <==> before[i].code / 64 == before[j].code / 64)
  {
    hide Services, LinkArea, SharesByNumber, LinkAll, WellFormed, Kind, Number, StoresTellNumbers, Uses;
    BuiltTreesHaveKinds(area);
    SharingIsOverlapping(area);
    TreeIsItsList(area, map[]);
    LinkAllCodes(Services(area), map[]);
    SharedByCode(Services(LinkArea(area, map[]).result), i, j);
  }

  lemma SharedByCode(services: seq<Service>, i: nat, j: nat)
    requires i < |services| && j < |services| && SharesByNumber(Slots(services))
    ensures services[i].store == services[j].store <==> services[i].code / 64 == services[j].code / 64
  {
    assert Slots(services)[i] == SlotOf(services[i]) && Slots(services)[j] == SlotOf(services[j]);
  }

  /** Trees from the builders have a kind for every service. */
  lemma BuiltTreesHaveKinds(area: Area)
    requires WellFormed(area)
    ensures KindsDefined(Slots(Services(area)))
  {
    BuilderInvariant(area);
    var services := Services(area);
    forall i | 0 <= i < |services|
      ensures Slots(services)[i].kind.Some?
    {
      assert services[i] in services;
    }
  }

  /** The service numbers and the stores they use. */
  ghost function Uses(services: seq<Service>): set<(u16, Store)> {
    set s | s in services :: (Number(s.code), s.store)
  }

  /** No store is used by services of two numbers: services that share one already overlap. */
  ghost predicate StoresTellNumbers(uses: set<(u16, Store)>) {
    forall p, q | p in uses && q in uses && p.1 == q.1 :: p.0 == q.0
  }

  /** Sharing a store is sharing a number, and then a kind. */
  ghost predicate SharesByNumber(slots: seq<Slot>) {
    forall i, j | 0 <= i < |slots| && 0 <= j < |slots| ::
      && (slots[i].store == slots[j].store <==> slots[i].number == slots[j].number)
      && (slots[i].number == slots[j].number ==> slots[i].kind == slots[j].kind)
  }

  /**
   After linking services, some of which may overlap and share a store already, sharing
   a store is sharing a number.
   */
  lemma SharingIsOverlapping(area: Area)
    requires KindsDefined(Slots(Services(area))) && StoresTellNumbers(Uses(Services(area)))
    requires LinkArea(area, map[]).stop.None?
    ensures SharesByNumber(Slots(Services(LinkArea(area, map[]).result)))
  {
    LinkingMeans(area);
    var services, linked := Services(area), Services(LinkArea(area, map[]).result);
    var slots := Slots(services);
    forall i, j | 0 <= i < |linked| && 0 <= j < |linked|
      ensures Slots(linked)[i].store == Slots(linked)[j].store <==> Slots(linked)[i].number == Slots(linked)[j].number
      ensures Slots(linked)[i].number == Slots(linked)[j].number ==> Slots(linked)[i].kind == Slots(linked)[j].kind
    {
      assert linked[i] == Owned(services, 0 + i) && linked[j] == Owned(services, 0 + j);
      var oi, oj := Owner(slots, i), Owner(slots, j);
      assert !Clashes(slots, i) && !Clashes(slots, j);
      assert Slots(linked)[i] == slots[i].(store := services[oi].store);
      assert Slots(linked)[j] == slots[j].(store := services[oj].store);
      assert (slots[oi].number, services[oi].store) in Uses(services);
      assert (slots[oj].number, services[oj].store) in Uses(services);
    }
  }

  ghost function RegistryUses(registry: Registry): set<(u16, Store)> {
    set n | n in registry :: (n, registry[n].store)
  }

  /** Linking, even as far as a clash, gives no store to a number that it did not have. */
  lemma {:induction false} LinkAllUses(services: seq<Service>, registry: Registry)
    ensures Uses(LinkAll(services, registry).result) <= Uses(services) + RegistryUses(registry)
    decreases |services|
  {
    if services != [] {
      var first := LinkService(services[0], registry);
      if first.stop.None? {
        var rest := LinkAll(services[1..], first.registry);
        LinkAllUses(services[1..], first.registry);
        FirstUses(services[0], registry);
        SplitUses(services[0], services[1..]);
        SplitUses(first.result, rest.result);
        assert services == [services[0]] + services[1..];
      }
    }
  }

  lemma SplitUses(service: Service, services: seq<Service>)
    ensures Uses([service] + services) == {(Number(service.code), service.store)} + Uses(services)
  {
  }

  lemma FirstUses(service: Service, registry: Registry)
    requires LinkService(service, registry).stop.None?
    ensures var use, first := (Number(service.code), service.store), LinkService(service, registry);
            && (Number(first.result.code), first.result.store) in {use} + RegistryUses(registry)
            && RegistryUses(first.registry) <= {use} + RegistryUses(registry)
  {
  }

  /** Linking changes neither numbers nor kinds. */
  lemma {:induction false} LinkAllCodes(services: seq<Service>, registry: Registry)
    ensures forall i | 0 <= i < |services| :: LinkAll(services, registry).result[i].code == services[i].code
    decreases |services|
  {
    if services != [] {
      var first := LinkService(services[0], registry);
      if first.stop.None? {
        LinkAllCodes(services[1..], first.registry);
      }
    }
  }

  /** Linking a second time changes nothing. */
  lemma LinkingTwice(area: Area)
    requires KindsDefined(Slots(Services(area)))
    requires LinkArea(area, map[]).stop.None?
    ensures var once := LinkArea(area, map[]).result;
            LinkArea(once, map[]).stop.None? && LinkArea(once, map[]).result == once
  {
    LinkingMeans(area);
    var services, once := Services(area), LinkArea(area, map[]).result;
    var linked := Services(once);
    forall i | 0 <= i < |services|
      ensures linked[i] == Owned(services, i)
      ensures Slots(linked)[i] == Slots(services)[i].(store := Slots(services)[Owner(Slots(services), i)].store)
    {
      assert linked[i] == Owned(services, 0 + i);
    }
    SameOwners(Slots(services), Slots(linked));
    LinkingMeans(once);
    var again := Services(LinkArea(once, map[]).result);
    forall i | 0 <= i < |linked|
      ensures again[i] == linked[i]
    {
      assert again[i] == Owned(linked, 0 + i);
    }
    UnchangedServices(once, map[]);
  }

  /** Owners depend on the numbers alone, and an owner owns itself. */
  lemma SameOwners(slots: seq<Slot>, linked: seq<Slot>)
    requires KindsDefined(slots) && |linked| == |slots|
    requires forall i | 0 <= i < |slots| ::
               linked[i] == slots[i].(store := slots[Owner(slots, i)].store) && !Clashes(slots, i)
    ensures KindsDefined(linked)
    ensures forall i | 0 <= i < |linked| :: !Clashes(linked, i) && linked[i].store == linked[Owner(linked, i)].store
  {
    forall i | 0 <= i < |linked|
      ensures linked[i].kind.Some? && !Clashes(linked, i) && linked[i].store == linked[Owner(linked, i)].store
    {
      SameFirst(slots, linked, slots[i].number);
      var o := Owner(slots, i);
      assert Owner(slots, o) == o && !Clashes(slots, i) && !Clashes(slots, o);
      assert linked[o] == slots[o].(store := slots[Owner(slots, o)].store);
    }
  }

  lemma SameFirst(a: seq<Slot>, b: seq<Slot>, number: u16)
    requires |a| == |b| && forall i | 0 <= i < |a| :: a[i].number == b[i].number
    ensures First(a, number) == First(b, number)
  {
  }

  /** Linking that leaves every service as it was leaves the tree as it was. */
  lemma {:induction false} UnchangedServices(area: Area, registry: Registry)
    requires Services(LinkArea(area, registry).result) == Services(area)
    ensures LinkArea(area, registry).result == area
    decreases area, 1
  {
    UnchangedChildren(area.children, registry);
  }

  lemma {:induction false} UnchangedChildren(children: seq<Child>, registry: Registry)
    requires ServicesOf(LinkChildren(children, registry).result) == ServicesOf(children)
    ensures LinkChildren(children, registry).result == children
    decreases children, 0
  {
    if children != [] {
      var first := LinkChild(children[0], registry);
      var tree := LinkChildren(children, registry);
      Split(children);
      Split(tree.result);
      ChildIsItsList(children[0], registry);
      var n := |ServicesOf([children[0]])|;
      assert ServicesOf([first.result]) == ServicesOf(tree.result)[..n] == ServicesOf([children[0]]);
      assert ServicesOf(tree.result[1..]) == ServicesOf(tree.result)[n..] == ServicesOf(children[1..]);
      OneChild(first.result);
      OneChild(children[0]);
      match children[0] {
        case SubArea(area) =>
          assert area < children[0];
          UnchangedServices(area, registry);
        case Leaf(service) =>
          assert ServicesOf([first.result])[0] == ServicesOf([children[0]])[0];
      }
      if first.stop.None? {
        UnchangedChildren(children[1..], first.registry);
      }
    }
  }
}
