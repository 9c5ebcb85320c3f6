/** The builders' checks by numbers: which codes areas and services may have, and which error names the first fault. */
module AreaRules {
  import opened Bytes
  import opened Wrappers
  import opened ServiceCodes
  import opened AreaTree

  /** An area ends at or behind its start and below FFFFh, has attribute 0 or 1, and spans all codes if it is area 0. */
  lemma AreaIsAccepted(code: u16, end: u16)
    ensures var result := ValidateAreaRange(code, end);
            && (result.Ok? <==> code <= end < 0xFFFF && code % 64 < 2 && (code == 0 ==> end == 0xFFFE))
            && (result == Err(NodeCodeOutOfRange(0xFFFF)) <==> code == 0xFFFF || end == 0xFFFF)
            && (result == Err(InvalidRootAreaRange(end)) <==> code == 0 && end < 0xFFFE)
            && (result == Err(InvalidAreaAttribute(code, code % 64))
                <==> code < 0xFFFF && end < 0xFFFF && code % 64 >= 2)
            && (result == Err(InvalidAreaRange(code, end)) <==> end < code < 0xFFFF && 0 < code && code % 64 < 2)
  {
  }

  /** A service's code is below FFFFh, has an attribute from 8 to 23, and lies in the range of its area. */
  lemma ServiceIsAccepted(code: u16, end: u16, service: u16)
    ensures var result := ValidateChildService(code, end, service);
            && (result.Ok? <==> service < 0xFFFF && 8 <= service % 64 < 24 && code <= service <= end)
            && (result == Err(NodeCodeOutOfRange(service)) <==> service == 0xFFFF)
            && (result == Err(UndefinedServiceAttribute(service, service % 64))
                <==> service < 0xFFFF && !(8 <= service % 64 < 24))
            && (result == Err(ServiceOutOfRange(code, end, service))
                <==> 8 <= service % 64 < 24 && !(code <= service <= end))
  {
    AttributeIs(service);
  }

  /** A child area lies in the range of its area, which must have attribute 0. */
  lemma ChildAreaIsAccepted(code: u16, end: u16, childCode: u16, childEnd: u16)
    ensures var result := ValidateChildArea(code, end, childCode, childEnd);
            && (result.Ok? <==> code % 64 == 0 && code <= childCode && childEnd <= end)
            && (result == Err(ChildAreaForbidden(code)) <==> code % 64 != 0)
            && (result == Err(AreaOutOfRange(code, end, childCode, childEnd))
                <==> code % 64 == 0 && (childCode < code || end < childEnd))
  {
  }

  /** What the builders accept, by numbers alone. */
  ghost predicate FollowsRules(area: Area)
    decreases area, 1
  {
    && area.code <= area.end < 0xFFFF && area.code % 64 < 2 && (area.code == 0 ==> area.end == 0xFFFE)
    && ChildrenFollowRules(area.children, area.code, area.end)
  }

  ghost predicate ChildrenFollowRules(children: seq<Child>, code: u16, end: u16)
    decreases children, 0
  {
    children == [] ||
    (&& (match children[0]
         case Leaf(service) => 8 <= service.code % 64 < 24 && code <= service.code <= end
         case SubArea(area) =>
           assert area < children[0];
           FollowsRules(area) && code % 64 == 0 && code <= area.code && area.end <= end)
     && ChildrenFollowRules(children[1..], code, end))
  }

  /** A tree is well formed exactly if its codes follow the rules at every depth. */
  lemma {:induction false} WellFormedIs(area: Area)
    ensures WellFormed(area) <==> FollowsRules(area)
    decreases area, 1
  {
    AreaIsAccepted(area.code, area.end);
    if area.end < 0xFFFF {
      ChildrenAre(area.children, area.code, area.end);
    }
  }

  lemma {:induction false} ChildrenAre(children: seq<Child>, code: u16, end: u16)
    requires end < 0xFFFF
    ensures WellFormedChildren(children, code, end) <==> ChildrenFollowRules(children, code, end)
    decreases children, 0
  {
    if children != [] {
      match children[0] {
        case Leaf(service) => ServiceIsAccepted(code, end, service.code);
        case SubArea(area) =>
          assert area < children[0];
          WellFormedIs(area);
          ChildAreaIsAccepted(code, end, area.code, area.end);
      }
      ChildrenAre(children[1..], code, end);
    }
  }

  /** A system's root area takes every code below FFFFh. */
  lemma RootIs()
    ensures ROOT_AREA_CODE == 0 && ROOT_END_SERVICE_CODE == 0xFFFE
    ensures ValidateAreaRange(ROOT_AREA_CODE, ROOT_END_SERVICE_CODE).Ok?
  {
  }
}
