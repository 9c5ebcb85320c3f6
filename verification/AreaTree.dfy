/**
 The tree of areas and services an emulated card stores: its builders and their
 checks, its flat directory, and the lookups in it.
 */
module AreaTree {
  import opened Bytes
  import opened Wrappers
  import opened ServiceCodes

  const ROOT_AREA_CODE: u16 := 0x0000
  const ROOT_END_SERVICE_CODE: u16 := 0xFFFE
  const MAX_NODE_CODE: u16 := 0xFFFE
  const CHILD_AREAS_ALLOWED: byte := 0
  const CHILD_AREAS_FORBIDDEN: byte := 1

  datatype ConfigError =
    | InvalidAreaRange(areaCode: u16, end: u16)
    | InvalidRootAreaRange(end: u16)
    | NodeCodeOutOfRange(nodeCode: u16)
    | InvalidAreaAttribute(areaCode: u16, attribute: byte)
    | ChildAreaForbidden(areaCode: u16)
    | UndefinedServiceAttribute(serviceCode: u16, attribute: byte)
    | ServiceOutOfRange(areaCode: u16, end: u16, serviceCode: u16)
    | AreaOutOfRange(areaCode: u16, end: u16, childCode: u16, childEnd: u16)
    | OverlapKindMismatch(serviceCode: u16, number: u16, existing: ServiceKind, added: ServiceKind)

  /** A block store that services may share; the number stands for its identity. */
  type Store = nat

  datatype Service = Service(code: u16, store: Store)
  datatype Child = SubArea(area: Area) | Leaf(service: Service)
  datatype Area = Area(code: u16, end: u16, children: seq<Child>)

  datatype DirectoryEntry = ServiceEntry(code: u16) | AreaEntry(areaCode: u16, end: u16)

  // ------------------------------------------------------------------- validation

  function ValidateNodeCode(code: u16): Result<(), ConfigError> {
    if code > MAX_NODE_CODE then Err(NodeCodeOutOfRange(code)) else Ok(())
  }

  function ValidateAreaRange(code: u16, end: u16): Result<(), ConfigError> {
    var attribute := code % 64;
    if ValidateNodeCode(code).Err? then ValidateNodeCode(code)
    else if ValidateNodeCode(end).Err? then ValidateNodeCode(end)
    else if code == ROOT_AREA_CODE && end != ROOT_END_SERVICE_CODE then Err(InvalidRootAreaRange(end))
    else if attribute != CHILD_AREAS_ALLOWED && attribute != CHILD_AREAS_FORBIDDEN then
      Err(InvalidAreaAttribute(code, attribute))
    else if code > end then Err(InvalidAreaRange(code, end))
    else Ok(())
  }

  function ValidateChildService(code: u16, end: u16, serviceCode: u16): Result<(), ConfigError> {
    if ValidateNodeCode(serviceCode).Err? then ValidateNodeCode(serviceCode)
    else if Attribute(serviceCode).None? then Err(UndefinedServiceAttribute(serviceCode, Attributes(serviceCode)))
    else if serviceCode < code || serviceCode > end then Err(ServiceOutOfRange(code, end, serviceCode))
    else Ok(())
  }

  predicate AllowsChildAreas(code: u16) {
    code % 64 == CHILD_AREAS_ALLOWED
  }

  function ValidateChildArea(code: u16, end: u16, childCode: u16, childEnd: u16): Result<(), ConfigError> {
    if !AllowsChildAreas(code) then Err(ChildAreaForbidden(code))
    else if childCode < code || childEnd > end then Err(AreaOutOfRange(code, end, childCode, childEnd))
    else Ok(())
  }

  /** A tree all of whose nodes pass the checks made when they are added. */
  ghost predicate WellFormed(area: Area)
    decreases area, 1
  {
    ValidateAreaRange(area.code, area.end).Ok? && WellFormedChildren(area.children, area.code, area.end)
  }

  ghost predicate WellFormedChildren(children: seq<Child>, code: u16, end: u16)
    decreases children, 0
  {
    children == [] ||
    (&& (match children[0]
         case Leaf(service) => ValidateChildService(code, end, service.code).Ok?
         case SubArea(area) =>
           assert area < children[0];
           WellFormed(area) && ValidateChildArea(code, end, area.code, area.end).Ok?)
     && WellFormedChildren(children[1..], code, end))
  }

  lemma {:induction false} WellFormedAppend(children: seq<Child>, child: Child, code: u16, end: u16)
    requires WellFormedChildren(children, code, end) && WellFormedChildren([child], code, end)
    ensures WellFormedChildren(children + [child], code, end)
    decreases |children|
  {
    if children == [] {
      assert children + [child] == [child];
    } else {
      WellFormedAppend(children[1..], child, code, end);
      assert (children + [child])[1..] == children[1..] + [child];
    }
  }

  // --------------------------------------------------------------------- builders

  class EmulatedArea {
    var areaCode: u16
    var endServiceCode: u16
    var children: seq<Child>

    function Tree(): Area
      reads this
    {
      Area(areaCode, endServiceCode, children)
    }

    ghost predicate Valid()
      reads this
    {
      WellFormed(Tree())
    }

    constructor Unchecked(areaCode: u16, endServiceCode: u16)
      ensures Tree() == Area(areaCode, endServiceCode, [])
    {
      this.areaCode := areaCode;
      this.endServiceCode := endServiceCode;
      children := [];
    }

    static method New(areaCode: u16, endServiceCode: u16) returns (result: Result<EmulatedArea, ConfigError>)
      ensures result.Ok? <==> ValidateAreaRange(areaCode, endServiceCode).Ok?
      ensures result.Err? ==> ValidateAreaRange(areaCode, endServiceCode) == Err(result.error)
      ensures result.Ok? ==>
                && fresh(result.value) && result.value.Valid()
                && result.value.Tree() == Area(areaCode, endServiceCode, [])
    {
      var check := ValidateAreaRange(areaCode, endServiceCode);
      if check.Err? {
        return Err(check.error);
      }
      var area := new EmulatedArea.Unchecked(areaCode, endServiceCode);
      result := Ok(area);
    }

    method AddService(service: Service) returns (result: Result<(), ConfigError>)
      requires Valid()
      modifies this`children
      ensures Valid()
      ensures result == ValidateChildService(areaCode, endServiceCode, service.code)
      ensures children == old(children) + if result.Ok? then [Leaf(service)] else []
    {
      result := ValidateChildService(areaCode, endServiceCode, service.code);
      if result.Ok? {
        WellFormedAppend(children, Leaf(service), areaCode, endServiceCode);
        children := children + [Leaf(service)];
      }
    }

    /** Moves `area` below this one, as it stands. */
    method AddArea(area: EmulatedArea) returns (result: Result<(), ConfigError>)
      requires Valid() && area.Valid()
      modifies this`children
      ensures Valid()
      ensures result == ValidateChildArea(areaCode, endServiceCode, area.areaCode, area.endServiceCode)
      ensures children == old(children) + if result.Ok? then [SubArea(old(area.Tree()))] else []
    {
      result := ValidateChildArea(areaCode, endServiceCode, area.areaCode, area.endServiceCode);
      if result.Ok? {
        WellFormedAppend(children, SubArea(area.Tree()), areaCode, endServiceCode);
        children := children + [SubArea(area.Tree())];
      }
    }
  }

  // -------------------------------------------------------------------- directory

  /** Area and service entries in pre-order. */
  function Directory(area: Area): (entries: seq<DirectoryEntry>)
    ensures |entries| >= 1 && entries[0] == AreaEntry(area.code, area.end)
    decreases area, 1
  {
    [AreaEntry(area.code, area.end)] + DirectoryOf(area.children)
  }

  function DirectoryOf(children: seq<Child>): seq<DirectoryEntry>
    decreases children, 0
  {
    if children == [] then []
    else
      (match children[0]
       case SubArea(area) => assert area < children[0]; Directory(area)
       case Leaf(service) => [ServiceEntry(service.code)])
      + DirectoryOf(children[1..])
  }

  lemma {:induction false} DirectoryAppend(children: seq<Child>, child: Child)
    ensures DirectoryOf(children + [child]) == DirectoryOf(children) + DirectoryOf([child])
    decreases |children|
  {
    if children == [] {
      assert children + [child] == [child];
      EmptyDirectory();
    } else {
      var first, rest := children[0], children[1..];
      assert children == [first] + rest;
      DirectoryAppend(rest, child);
      DirectoryCons(first, rest);
      DirectoryCons(first, rest + [child]);
      DirectoryGlue(children, first, rest, child);
    }
  }

  lemma EmptyDirectory()
    ensures DirectoryOf([]) == []
  {
  }

  lemma DirectoryGlue(children: seq<Child>, first: Child, rest: seq<Child>, child: Child)
    requires children == [first] + rest
    requires DirectoryOf(rest + [child]) == DirectoryOf(rest) + DirectoryOf([child])
    requires DirectoryOf([first] + rest) == DirectoryOf([first]) + DirectoryOf(rest)
    requires DirectoryOf([first] + (rest + [child])) == DirectoryOf([first]) + DirectoryOf(rest + [child])
    ensures DirectoryOf(children + [child]) == DirectoryOf(children) + DirectoryOf([child])
  {
    hide *;
    assert children + [child] == [first] + (rest + [child]);
  }

  /** The first child's entries come first. */
  lemma DirectoryCons(first: Child, rest: seq<Child>)
    ensures DirectoryOf([first] + rest) == DirectoryOf([first]) + DirectoryOf(rest)
  {
    var all := [first] + rest;
    assert all[0] == first && all[1..] == rest;
    assert [first][1..] == [];
  }

  method AppendDirectoryEntries(area: Area, entries: seq<DirectoryEntry>) returns (extended: seq<DirectoryEntry>)
    ensures extended == entries + Directory(area)
    decreases area
  {
    var children := area.children;
    extended := entries + [AreaEntry(area.code, area.end)];
    ghost var start := extended;
    for i := 0 to |children|
      invariant extended == start + DirectoryOf(children[..i])
    {
      var child := children[i];
      match child {
        case SubArea(below) =>
          assert below < child;
          extended := AppendDirectoryEntries(below, extended);
        case Leaf(service) =>
          extended := extended + [ServiceEntry(service.code)];
      }
      NextEntries(start, children, i);
    }
    AllEntries(entries, area);
  }

  /** The entries of the first `i` children behind `start`, and then those of the next. */
  lemma NextEntries(start: seq<DirectoryEntry>, children: seq<Child>, i: nat)
    requires i < |children|
    ensures start + DirectoryOf(children[..i + 1])
            == start + DirectoryOf(children[..i])
               + match children[i] { case SubArea(area) => Directory(area) case Leaf(s) => [ServiceEntry(s.code)] }
  {
    DirectoryAppend(children[..i], children[i]);
    assert children[..i + 1] == children[..i] + [children[i]];
    OneChild(children[i]);
  }

  lemma AllEntries(entries: seq<DirectoryEntry>, area: Area)
    ensures entries + [AreaEntry(area.code, area.end)] + DirectoryOf(area.children[..|area.children|])
            == entries + Directory(area)
  {
    assert area.children[..|area.children|] == area.children;
  }

  predicate Inside(entry: DirectoryEntry, code: u16, end: u16) {
    match entry
    case ServiceEntry(service) => code <= service <= end
    case AreaEntry(areaCode, areaEnd) => code <= areaCode && areaEnd <= end
  }

  /** The areas of a tree in pre-order. */
  function Areas(area: Area): (areas: seq<Area>)
    decreases area, 1
  {
    [area] + AreasOf(area.children)
  }

  function AreasOf(children: seq<Child>): seq<Area>
    decreases children, 0
  {
    if children == [] then []
    else
      (match children[0]
       case SubArea(area) => assert area < children[0]; Areas(area)
       case Leaf(_) => [])
      + AreasOf(children[1..])
  }

  /** The services of a tree in pre-order. */
  function Services(area: Area): seq<Service>
    decreases area, 1
  {
    ServicesOf(area.children)
  }

  function ServicesOf(children: seq<Child>): seq<Service>
    decreases children, 0
  {
    if children == [] then []
    else
      (match children[0]
       case SubArea(area) => assert area < children[0]; Services(area)
       case Leaf(service) => [service])
      + ServicesOf(children[1..])
  }

  lemma OneChild(child: Child)
    ensures ServicesOf([child]) == match child { case SubArea(area) => Services(area) case Leaf(service) => [service] }
    ensures DirectoryOf([child])
            == match child { case SubArea(area) => Directory(area) case Leaf(service) => [ServiceEntry(service.code)] }
  {
    assert [child][1..] == [];
  }

  /**
   What building guarantees: every descendant of every area lies in its range, an
   area whose attribute forbids child areas has none, and every service attribute is
   defined, so that linking the services always finds their kind.
   */
  lemma {:induction false} BuilderInvariant(area: Area)
    requires WellFormed(area)
    ensures forall a | a in Areas(area) ::
              && (forall e | e in Directory(a) :: Inside(e, a.code, a.end))
              && (!AllowsChildAreas(a.code) ==> AreasOf(a.children) == [])
    ensures forall s | s in Services(area) :: Kind(s.code).Some?
    ensures forall e | e in Directory(area) :: Inside(e, area.code, area.end)
    decreases area, 1
  {
    ChildrenInvariant(area.children, area.code, area.end);
  }

  lemma {:induction false} ChildrenInvariant(children: seq<Child>, code: u16, end: u16)
    requires WellFormedChildren(children, code, end)
    ensures forall a | a in AreasOf(children) ::
              && (forall e | e in Directory(a) :: Inside(e, a.code, a.end))
              && (!AllowsChildAreas(a.code) ==> AreasOf(a.children) == [])
    ensures forall s | s in ServicesOf(children) :: Kind(s.code).Some?
    ensures forall e | e in DirectoryOf(children) :: Inside(e, code, end)
    ensures !AllowsChildAreas(code) ==> AreasOf(children) == []
    decreases children, 0
  {
    if children != [] {
      ChildrenInvariant(children[1..], code, end);
      match children[0]
      case SubArea(area) => assert area < children[0]; BuilderInvariant(area);
      case Leaf(_) =>
    }
  }

  // ---------------------------------------------------------------------- lookups

  function FindService(area: Area, code: u16): Option<Service>
    decreases area, 1
  {
    FindServiceAmong(area.children, code)
  }

  function FindServiceAmong(children: seq<Child>, code: u16): Option<Service>
    decreases children, 0
  {
    if children == [] then None
    else
      match children[0]
      case SubArea(area) =>
        assert area < children[0];
        var found := FindService(area, code);
        if found.Some? then found else FindServiceAmong(children[1..], code)
      case Leaf(service) =>
        if service.code == code then Some(service) else FindServiceAmong(children[1..], code)
  }

  function FindArea(area: Area, code: u16): Option<Area>
    decreases area, 1
  {
    if area.code == code then Some(area) else FindAreaAmong(area.children, code)
  }

  function FindAreaAmong(children: seq<Child>, code: u16): Option<Area>
    decreases children, 0
  {
    if children == [] then None
    else
      match children[0]
      case SubArea(area) =>
        assert area < children[0];
        var found := FindArea(area, code);
        if found.Some? then found else FindAreaAmong(children[1..], code)
      case Leaf(_) => FindAreaAmong(children[1..], code)
  }

  /** `found` is the first element of `all` that satisfies `test`, none if there is none. */
  ghost predicate IsFirst<T(!new)>(found: Option<T>, all: seq<T>, test: T -> bool) {
    match found
    case None => forall x | x in all :: !test(x)
    case Some(x) => exists i :: 0 <= i < |all| && all[i] == x && test(x) && forall j | 0 <= j < i :: !test(all[j])
  }

  lemma FirstOfTwo<T(!new)>(f: Option<T>, g: Option<T>, front: seq<T>, back: seq<T>, test: T -> bool)
    requires IsFirst(f, front, test) && IsFirst(g, back, test)
    ensures IsFirst(if f.Some? then f else g, front + back, test)
  {
    var all := front + back;
    if f.Some? {
      var i :| 0 <= i < |front| && front[i] == f.value && test(f.value) && forall j | 0 <= j < i :: !test(front[j]);
      assert all[i] == f.value && forall j | 0 <= j < i :: !test(all[j]);
    } else if g.Some? {
      var i :| 0 <= i < |back| && back[i] == g.value && test(g.value) && forall j | 0 <= j < i :: !test(back[j]);
      var k := |front| + i;
      assert all[k] == g.value;
      forall j | 0 <= j < k
        ensures !test(all[j])
      {
        if j < |front| {
          assert all[j] in front;
        } else {
          assert all[j] == back[j - |front|];
        }
      }
    }
  }

  /** A service lookup yields the pre-order-first match, and one exactly when the code is listed. */
  lemma {:induction false} FindServiceIsFirst(area: Area, code: u16)
    ensures IsFirst(FindService(area, code), Services(area), (s: Service) => s.code == code)
    ensures FindService(area, code).Some? <==> ServiceEntry(code) in Directory(area)
    decreases area, 1
  {
    FindServiceAmongIsFirst(area.children, code);
  }

  lemma {:induction false} FindServiceAmongIsFirst(children: seq<Child>, code: u16)
    ensures IsFirst(FindServiceAmong(children, code), ServicesOf(children), (s: Service) => s.code == code)
    ensures FindServiceAmong(children, code).Some? <==> ServiceEntry(code) in DirectoryOf(children)
    decreases children, 0
  {
    if children != [] {
      var test := (s: Service) => s.code == code;
      FindServiceAmongIsFirst(children[1..], code);
      var rest := FindServiceAmong(children[1..], code);
      match children[0]
      case SubArea(area) =>
        assert area < children[0];
        FindServiceIsFirst(area, code);
        FirstOfTwo(FindService(area, code), rest, Services(area), ServicesOf(children[1..]), test);
      case Leaf(service) =>
        var here := if service.code == code then Some(service) else None;
        assert [service][0] == service;
        assert IsFirst(here, [service], test);
        FirstOfTwo(here, rest, [service], ServicesOf(children[1..]), test);
    }
  }

  predicate ListsArea(entries: seq<DirectoryEntry>, code: u16) {
    exists i :: 0 <= i < |entries| && entries[i].AreaEntry? && entries[i].areaCode == code
  }

  lemma ListsAreaAppend(a: seq<DirectoryEntry>, b: seq<DirectoryEntry>, code: u16)
    ensures ListsArea(a + b, code) <==> ListsArea(a, code) || ListsArea(b, code)
  {
    if ListsArea(a, code) {
      var i :| 0 <= i < |a| && a[i].AreaEntry? && a[i].areaCode == code;
      assert (a + b)[i] == a[i];
    } else if ListsArea(b, code) {
      var i :| 0 <= i < |b| && b[i].AreaEntry? && b[i].areaCode == code;
      assert (a + b)[|a| + i] == b[i];
    }
  }

  /** An area lookup yields the pre-order-first match, and one exactly when the code is listed. */
  lemma {:induction false} FindAreaIsFirst(area: Area, code: u16)
    ensures IsFirst(FindArea(area, code), Areas(area), (a: Area) => a.code == code)
    ensures FindArea(area, code).Some? <==> ListsArea(Directory(area), code)
    decreases area, 1
  {
    var test := (a: Area) => a.code == code;
    FindAreaAmongIsFirst(area.children, code);
    var here := if area.code == code then Some(area) else None;
    assert [area][0] == area;
    assert IsFirst(here, [area], test);
    FirstOfTwo(here, FindAreaAmong(area.children, code), [area], AreasOf(area.children), test);
    ListsAreaAppend([AreaEntry(area.code, area.end)], DirectoryOf(area.children), code);
    assert ListsArea([AreaEntry(area.code, area.end)], code) <==> area.code == code by {
      assert [AreaEntry(area.code, area.end)][0].areaCode == area.code;
    }
  }

  lemma {:induction false} FindAreaAmongIsFirst(children: seq<Child>, code: u16)
    ensures IsFirst(FindAreaAmong(children, code), AreasOf(children), (a: Area) => a.code == code)
    ensures FindAreaAmong(children, code).Some? <==> ListsArea(DirectoryOf(children), code)
    decreases children, 0
  {
    if children != [] {
      var test := (a: Area) => a.code == code;
      var rest := FindAreaAmong(children[1..], code);
      FindAreaAmongIsFirst(children[1..], code);
      match children[0]
      case SubArea(area) =>
        assert area < children[0];
        FindAreaIsFirst(area, code);
        FirstOfTwo(FindArea(area, code), rest, Areas(area), AreasOf(children[1..]), test);
        ListsAreaAppend(Directory(area), DirectoryOf(children[1..]), code);
      case Leaf(service) =>
        assert [] + AreasOf(children[1..]) == AreasOf(children[1..]);
        ListsAreaAppend([ServiceEntry(service.code)], DirectoryOf(children[1..]), code);
    }
  }
}
