/**
 A system of the emulated card: services and areas are added below its root area one
 after the other, and every addition links the overlapping services of the whole tree.
 */
module CardSystem {
  import opened Bytes
  import opened Wrappers
  import opened ServiceCodes
  import opened AreaTree
  import opened Overlap

  // ---------------------------------------------------------------- specification

  function NewRoot(): Area { Area(ROOT_AREA_CODE, ROOT_END_SERVICE_CODE, []) }

  /** The root area after an addition, and why it was refused, if it was. */
  datatype Added = Added(root: Area, refusal: Option<Stop>)

  function ValidateChild(root: Area, child: Child): Result<(), ConfigError> {
    match child
    case Leaf(service) => ValidateChildService(root.code, root.end, service.code)
    case SubArea(area) => ValidateChildArea(root.code, root.end, area.code, area.end)
  }

  /** The root area with one more child, not yet linked. */
  function With(root: Area, child: Child): Area { root.(children := root.children + [child]) }

  /** A child that fails its check stays out; one that causes a kind clash stays in. */
  function Add(root: Area, child: Child): Added {
    match ValidateChild(root, child)
    case Err(error) => Added(root, Some(Rejected(error)))
    case Ok(_) =>
      var linked := LinkArea(With(root, child), map[]);
      Added(linked.result, linked.stop)
  }

  /** A child is added by the system, or directly to the root area, which links nothing. */
  datatype Addition = BySystem(child: Child) | Directly(child: Child)

  function Apply(root: Area, addition: Addition): Area {
    match addition
    case BySystem(child) => Add(root, child).root
    case Directly(child) => if ValidateChild(root, child).Ok? then With(root, child) else root
  }

  function ApplyAll(root: Area, additions: seq<Addition>): Area
    decreases |additions|
  {
    if additions == [] then root else ApplyAll(Apply(root, additions[0]), additions[1..])
  }

  /** Whether the last addition that passed its check was one by the system. */
  predicate EndsLinked(root: Area, additions: seq<Addition>, linked: bool)
    decreases |additions|
  {
    if additions == [] then linked
    else
      var accepted := ValidateChild(root, additions[0].child).Ok?;
      EndsLinked(Apply(root, additions[0]), additions[1..], if accepted then additions[0].BySystem? else linked)
  }

  // ------------------------------------------------------------------- the system

  class EmulatedSystem {
    const rootArea: EmulatedArea

    ghost predicate Valid()
      reads this, rootArea
    {
      rootArea.Valid()
    }

    constructor ()
      ensures Valid() && fresh(rootArea) && rootArea.Tree() == NewRoot()
    {
      var area := EmulatedArea.New(ROOT_AREA_CODE, ROOT_END_SERVICE_CODE);
      rootArea := area.value;
    }

    method AddService(service: Service) returns (refusal: Option<Stop>)
      requires Valid()
      modifies rootArea
      ensures Valid()
      ensures Added(rootArea.Tree(), refusal) == Add(old(rootArea.Tree()), Leaf(service))
    {
      var added := rootArea.AddService(service);
      if added.Err? {
        return Some(Rejected(added.error));
      }
      refusal := SyncOverlappingServices();
    }

    method AddArea(area: EmulatedArea) returns (refusal: Option<Stop>)
      requires Valid() && area.Valid()
      modifies rootArea
      ensures Valid()
      ensures Added(rootArea.Tree(), refusal) == Add(old(rootArea.Tree()), SubArea(old(area.Tree())))
    {
      var added := rootArea.AddArea(area);
      if added.Err? {
        return Some(Rejected(added.error));
      }
      refusal := SyncOverlappingServices();
    }

    /** Links the whole tree from an empty registry. */
    method SyncOverlappingServices() returns (stop: Option<Stop>)
      requires Valid()
      modifies rootArea
      ensures Valid()
      ensures var linked := LinkArea(old(rootArea.Tree()), map[]);
              rootArea.Tree() == linked.result && stop == linked.stop
    {
      var linked := Overlap.SyncOverlappingServices(rootArea.Tree(), map[]);
      LinkedIsWellFormed(rootArea.Tree(), map[]);
      rootArea.children := linked.result.children;
      stop := linked.stop;
    }
  }

  // -------------------------------------------------------------- what additions keep

  lemma {:induction false} LinkedIsWellFormed(area: Area, registry: Registry)
    requires WellFormed(area)
    ensures WellFormed(LinkArea(area, registry).result)
    decreases area, 1
  {
    LinkedChildrenAreWellFormed(area.children, registry, area.code, area.end);
  }

  lemma {:induction false} LinkedChildrenAreWellFormed(children: seq<Child>, registry: Registry, code: u16, end: u16)
    requires WellFormedChildren(children, code, end)
    ensures WellFormedChildren(LinkChildren(children, registry).result, code, end)
    decreases children, 0
  {
    if children != [] {
      var first := LinkChild(children[0], registry);
      match children[0] {
        case SubArea(area) =>
          assert area < children[0];
          LinkedIsWellFormed(area, registry);
        case Leaf(_) =>
      }
      LinkedChildrenAreWellFormed(children[1..], first.registry, code, end);
      var linked := LinkChildren(children, registry).result;
      assert linked[0] == first.result;
      assert linked[1..]
             == if first.stop.Some? then children[1..] else LinkChildren(children[1..], first.registry).result;
    }
  }

  lemma {:induction false} ServicesAppend(children: seq<Child>, child: Child)
    ensures ServicesOf(children + [child]) == ServicesOf(children) + ServicesOf([child])
    decreases |children|
  {
    var all := children + [child];
    if children == [] {
      assert all == [child];
    } else {
      assert all[0] == children[0] && all[1..] == children[1..] + [child];
      Split(all);
      Split(children);
      ServicesAppend(children[1..], child);
    }
  }

  /** Every area below is one the builders made. */
  ghost predicate Built(child: Child) {
    child.SubArea? ==> WellFormed(child.area)
  }

  ghost predicate NoClash(area: Area) {
    forall i | 0 <= i < |Services(area)| :: !Clashes(Slots(Services(area)), i)
  }

  lemma WithIsWellFormed(root: Area, child: Child)
    requires WellFormed(root) && Built(child) && ValidateChild(root, child).Ok?
    ensures WellFormed(With(root, child)) && KindsDefined(Slots(Services(With(root, child))))
    ensures Services(With(root, child)) == Services(root) + ServicesOf([child])
  {
    assert [child][1..] == [];
    WellFormedAppend(root.children, child, root.code, root.end);
    BuiltTreesHaveKinds(With(root, child));
    ServicesAppend(root.children, child);
  }

  /** Linking keeps codes, so what clashes before it clashes after it. */
  lemma LinkingKeepsClashes(area: Area)
    requires KindsDefined(Slots(Services(area)))
    ensures NoClash(LinkArea(area, map[]).result) <==> NoClash(area)
    ensures LinkArea(area, map[]).stop.None? <==> NoClash(area)
  {
    LinkingMeans(area);
    TreeIsItsList(area, map[]);
    LinkAllCodes(Services(area), map[]);
    var slots, linked := Slots(Services(area)), Slots(Services(LinkArea(area, map[]).result));
    forall i | 0 <= i < |slots|
      ensures Clashes(slots, i) <==> Clashes(linked, i)
    {
      SameFirst(slots, linked, slots[i].number);
    }
  }

  /** What holds of the tree after every addition; `linked` if the last one linked it. */
  ghost predicate Keeps(root: Area, uses: set<(u16, Store)>, linked: bool) {
    && WellFormed(root)
    && Uses(Services(root)) <= uses
    && (linked && NoClash(root) ==> SharesByNumber(Slots(Services(root))))
  }

  /** An addition by the system links the tree, whatever was added to it without linking before. */
  lemma AddKeeps(root: Area, child: Child, uses: set<(u16, Store)>, linked: bool)
    requires Keeps(root, uses, linked) && Built(child)
    requires Uses(ServicesOf([child])) <= uses && StoresTellNumbers(uses)
    ensures Keeps(Add(root, child).root, uses, linked || ValidateChild(root, child).Ok?)
  {
    if ValidateChild(root, child).Ok? {
      var all := With(root, child);
      WithIsWellFormed(root, child);
      LinkedIsWellFormed(all, map[]);
      UsesAppend(Services(root), ServicesOf([child]));
      TreeIsItsList(all, map[]);
      LinkAllUses(Services(all), map[]);
      LinkingKeepsClashes(all);
      if NoClash(all) {
        SharingIsOverlapping(all);
      }
    }
  }

  lemma ApplyKeeps(root: Area, addition: Addition, uses: set<(u16, Store)>, linked: bool)
    requires Keeps(root, uses, linked) && Built(addition.child)
    requires Uses(ServicesOf([addition.child])) <= uses && StoresTellNumbers(uses)
    ensures Keeps(Apply(root, addition), uses,
                  if ValidateChild(root, addition.child).Ok? then addition.BySystem? else linked)
  {
    hide Add, SharesByNumber, NoClash, WellFormed, StoresTellNumbers, Uses, Services;
    if addition.BySystem? {
      AddKeeps(root, addition.child, uses, linked);
      RefusedStaysOut(root, addition.child);
    } else if ValidateChild(root, addition.child).Ok? {
      WithIsWellFormed(root, addition.child);
      UsesAppend(Services(root), ServicesOf([addition.child]));
    }
  }

  lemma RefusedStaysOut(root: Area, child: Child)
    ensures ValidateChild(root, child).Err? ==> Add(root, child).root == root
  {
  }

  lemma UsesAppend(a: seq<Service>, b: seq<Service>)
    ensures Uses(a + b) == Uses(a) + Uses(b)
  {
  }

  /**
   Over any run of additions, direct and refused ones included: as long as no kinds
   clash, and the system made the last addition that passed its check, two services
   share a block store exactly when they share a number. The added services may
   already overlap and share, among themselves and with others.
   */
  lemma {:induction false} RunKeeps(root: Area, additions: seq<Addition>, uses: set<(u16, Store)>, linked: bool)
    requires Keeps(root, uses, linked) && StoresTellNumbers(uses)
    requires forall a | a in additions :: Built(a.child) && Uses(ServicesOf([a.child])) <= uses
    ensures Keeps(ApplyAll(root, additions), uses, EndsLinked(root, additions, linked))
    decreases |additions|
  {
    if additions != [] {
      hide Keeps, StoresTellNumbers, Uses, Built;
      ApplyKeeps(root, additions[0], uses, linked);
      var accepted := ValidateChild(root, additions[0].child).Ok?;
      RunKeeps(Apply(root, additions[0]), additions[1..], uses, if accepted then additions[0].BySystem? else linked);
    }
  }

  lemma SystemsShareByNumber(additions: seq<Addition>, uses: set<(u16, Store)>)
    requires StoresTellNumbers(uses)
    requires forall a | a in additions :: Built(a.child) && Uses(ServicesOf([a.child])) <= uses
    ensures var root := ApplyAll(NewRoot(), additions);
            && WellFormed(root)
            && (NoClash(root) && EndsLinked(NewRoot(), additions, true) ==> SharesByNumber(Slots(Services(root))))
  {
    assert Services(NewRoot()) == [];
    RunKeeps(NewRoot(), additions, uses, true);
  }

  /** A direct addition to a linked tree keeps its sharing exactly if the service brings the store of its number. */
  lemma DirectlyKeepsSharing(root: Area, service: Service)
    requires SharesByNumber(Slots(Services(root)))
    requires ValidateChild(root, Leaf(service)).Ok?
    ensures SharesByNumber(Slots(Services(Apply(root, Directly(Leaf(service))))))
            <==> forall i | 0 <= i < |Services(root)| ::
                   var slot, added := Slots(Services(root))[i], SlotOf(service);
                   && (slot.number == added.number <==> slot.store == added.store)
                   && (slot.number == added.number ==> slot.kind == added.kind)
  {
    ServicesAppend(root.children, Leaf(service));
    assert [service][1..] == [] && ServicesOf([Leaf(service)]) == [service];
    var all := Services(With(root, Leaf(service)));
    assert all == Services(root) + [service];
    var slots, n := Slots(all), |Services(root)|;
    assert slots[n] == SlotOf(service);
    assert forall i | 0 <= i < n :: slots[i] == Slots(Services(root))[i];
  }

  /** An addition succeeds exactly if the child passes its check and no kinds clash then. */
  lemma AddSucceeds(root: Area, child: Child)
    requires WellFormed(root) && Built(child)
    ensures Add(root, child).refusal.None? <==> ValidateChild(root, child).Ok? && NoClash(Add(root, child).root)
  {
    if ValidateChild(root, child).Ok? {
      WithIsWellFormed(root, child);
      LinkingKeepsClashes(With(root, child));
    }
  }

  /** A clash is never resolved: once there is one, every later addition is refused. */
  lemma ClashesStay(root: Area, child: Child)
    requires WellFormed(root) && Built(child) && !NoClash(root)
    ensures !NoClash(Add(root, child).root) && Add(root, child).refusal.Some?
  {
    AddSucceeds(root, child);
    if ValidateChild(root, child).Ok? {
      WithIsWellFormed(root, child);
      LinkingKeepsClashes(With(root, child));
      var i :| 0 <= i < |Services(root)| && Clashes(Slots(Services(root)), i);
      FirstInFront(Slots(Services(root)), Slots(Services(With(root, child))), Slots(Services(root))[i].number);
      assert Clashes(Slots(Services(With(root, child))), i);
    }
  }

  lemma FirstInFront(front: seq<Slot>, all: seq<Slot>, number: u16)
    requires front <= all && First(front, number) < |front|
    ensures First(all, number) == First(front, number)
  {
  }
}
