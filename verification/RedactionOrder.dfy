/** The node budget is spent in document order: the redaction is the budget-free one, cut after 512 nodes. */
module RedactionOrder {
  import opened Wrappers
  import opened Redaction
  import opened RedactionSizes
  import opened RedactionMeaning

  /** A value when `nodes` nodes stand before it in document order: from the 513th on only markers stand. */
  function Cut(v: Json, nodes: nat): (Json, nat)
    decreases v
  {
    if nodes >= 512 then (Str("[TRUNCATED]"), nodes + 1)
    else
      match v
      case List(items) => var (kept, after) := CutItems(items, nodes + 1); (List(kept), after)
      case Dict(members) => var (kept, after) := CutMembers(members, nodes + 1); (Dict(kept), after)
      case _ => (v, nodes + 1)
  }

  function CutItems(items: seq<Json>, nodes: nat): (r: (seq<Json>, nat))
    ensures |r.0| == |items|
    decreases items
  {
    if items == [] then ([], nodes)
    else
      var (first, mid) := Cut(items[0], nodes);
      var (rest, after) := CutItems(items[1..], mid);
      ([first] + rest, after)
  }

  function CutMembers(members: seq<Member>, nodes: nat): (seq<Member>, nat)
    decreases members
  {
    if members == [] then ([], nodes)
    else
      var (first, mid) := CutMember(members[0], nodes);
      var (rest, after) := CutMembers(members[1..], mid);
      ([first] + rest, after)
  }

  function CutMember(member: Member, nodes: nat): (Member, nat)
    decreases member
  {
    var (value, after) := Cut(member.value, nodes);
    (Member(member.key, value), after)
  }

  lemma {:induction false} CutRebuilt(pairs: seq<Pair>, values: seq<Json>, nodes: nat)
    requires |pairs| == |values|
    ensures CutMembers(Rebuild(pairs, values), nodes)
         == (Rebuild(pairs, CutItems(values, nodes).0), CutItems(values, nodes).1)
  {
    var members := Rebuild(pairs, values);
    if pairs == [] {
      assert members == [] && Rebuild(pairs, CutItems(values, nodes).0) == [];
    } else {
      var (first, mid) := Cut(values[0], nodes);
      var rest := CutItems(values[1..], mid).0;
      assert members[1..] == Rebuild(pairs[1..], values[1..]);
      CutRebuilt(pairs[1..], values[1..], mid);
      assert Rebuild(pairs, [first] + rest) == [Member(members[0].key, first)] + Rebuild(pairs[1..], rest);
    }
  }

  lemma CutAssembled(v: Json, values: seq<Json>, nodes: nat)
    requires IsContainer(v) && |values| == |Children(v)| && nodes < 512
    ensures Cut(Assemble(v, values), nodes)
         == (Assemble(v, CutItems(values, nodes + 1).0), CutItems(values, nodes + 1).1)
  {
    if v.Dict? {
      CutRebuilt(Chosen(v.members), values, nodes + 1);
    }
  }

  lemma {:induction false} VisitIsCut(v: Json, depth: Depth, key: Option<string>, nodes: nat, sensitive: Verdict)
    ensures Visit(v, depth, key, nodes, sensitive) == Cut(Free(v, depth, key, sensitive), nodes)
    decreases MAX_OPEN_DEPTH + 2 - depth, 0
  {
    if nodes < 512 && !Hides(key, sensitive) && depth <= MAX_OPEN_DEPTH && IsContainer(v) {
      VisitAllIsCut(Children(v), depth + 1, nodes + 1, sensitive);
      CutAssembled(v, FreeAll(Children(v), depth + 1, sensitive), nodes);
    }
  }

  lemma {:induction false} VisitAllIsCut(children: seq<Child>, depth: Depth, nodes: nat, sensitive: Verdict)
    ensures VisitAll(children, depth, nodes, sensitive) == CutItems(FreeAll(children, depth, sensitive), nodes)
    decreases MAX_OPEN_DEPTH + 2 - depth, 1 + |children|
  {
    if children != [] {
      var free := FreeAll(children, depth, sensitive);
      VisitIsCut(children[0].value, depth, children[0].key, nodes, sensitive);
      VisitAllIsCut(children[1..], depth, Visit(children[0].value, depth, children[0].key, nodes, sensitive).1,
                    sensitive);
      assert free[1..] == FreeAll(children[1..], depth, sensitive);
    }
  }

  lemma {:induction false} FreeIsShown(v: Json, depth: Depth, key: Option<string>, sensitive: Verdict)
    ensures ShownAs(v, Free(v, depth, key, sensitive), depth, key, sensitive, false)
    decreases MAX_OPEN_DEPTH + 2 - depth, 0
  {
    if !Hides(key, sensitive) && depth <= MAX_OPEN_DEPTH && IsContainer(v) {
      var values := FreeAll(Children(v), depth + 1, sensitive);
      FreeAllAreShown(Children(v), depth + 1, sensitive);
      if v.List? {
        ListIsShown(v, values, depth, key, sensitive, false);
      } else {
        DictIsShown(v, values, depth, key, sensitive, false);
      }
    }
  }

  lemma {:induction false} FreeAllAreShown(children: seq<Child>, depth: Depth, sensitive: Verdict)
    ensures AllShownAs(children, FreeAll(children, depth, sensitive), depth, sensitive, false)
    decreases MAX_OPEN_DEPTH + 2 - depth, 1 + |children|
  {
    if children != [] {
      FreeIsShown(children[0].value, depth, children[0].key, sensitive);
      FreeAllAreShown(children[1..], depth, sensitive);
    }
  }

  /**
   The whole redaction, in two steps.  There is what the value is shown as when no budget is set; and what comes
   out is that, with every node that stands after the first 512 in document order, and no other, cut to a marker.
   */
  lemma RedactedIsTheFreeOneCut(v: Json, sensitive: Verdict)
    ensures exists free :: ShownAs(v, free, 0, None, sensitive, false) && Redact(v, sensitive) == Cut(free, 0).0
  {
    FreeIsShown(v, 0, None, sensitive);
    VisitIsCut(v, 0, None, 0, sensitive);
  }
}
