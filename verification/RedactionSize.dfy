/** How large the output is, what the budget leaves out of it, and exactly when it leaves out anything. */
module RedactionSizes {
  import opened Wrappers
  import opened Redaction
  import opened RedactionBounds
  import opened RedactionLaws

  /** The nodes of a value; the truncation markers among them count only when `markersToo`. */
  function Nodes(v: Json, markersToo: bool): nat
    decreases v
  {
    match v
    case List(items) => 1 + ItemNodes(items, markersToo)
    case Dict(members) => 1 + MemberNodes(members, markersToo)
    case Str(text) => if text == TRUNCATED && !markersToo then 0 else 1
    case _ => 1
  }

  function ItemNodes(items: seq<Json>, markersToo: bool): nat
    decreases items
  {
    if items == [] then 0 else Nodes(items[0], markersToo) + ItemNodes(items[1..], markersToo)
  }

  function MemberNodes(members: seq<Member>, markersToo: bool): nat
    decreases members
  {
    if members == [] then 0 else EntryNodes(members[0], markersToo) + MemberNodes(members[1..], markersToo)
  }

  function EntryNodes(member: Member, markersToo: bool): nat
    decreases member
  {
    Nodes(member.value, markersToo)
  }

  function Size(v: Json): nat {
    Nodes(v, true)
  }

  lemma {:induction false} RebuiltNodes(pairs: seq<Pair>, values: seq<Json>, markersToo: bool)
    requires |pairs| == |values|
    ensures MemberNodes(Rebuild(pairs, values), markersToo) == ItemNodes(values, markersToo)
  {
    if pairs != [] {
      assert Rebuild(pairs, values)[1..] == Rebuild(pairs[1..], values[1..]);
      RebuiltNodes(pairs[1..], values[1..], markersToo);
    }
  }

  lemma AssembledNodes(v: Json, values: seq<Json>, markersToo: bool)
    requires IsContainer(v) && |values| == |Children(v)|
    ensures Nodes(Assemble(v, values), markersToo) == 1 + ItemNodes(values, markersToo)
  {
    if v.Dict? {
      RebuiltNodes(Chosen(v.members), values, markersToo);
    }
  }

  /** The output for a container that opens: itself and what its children became. */
  lemma OpenedNodes(v: Json, depth: Depth, key: Option<string>, nodes: nat, sensitive: Verdict, markersToo: bool)
    requires Opens(v, depth, key, nodes, sensitive)
    ensures var (values, after) := VisitAll(Children(v), depth + 1, nodes + 1, sensitive);
            && Visit(v, depth, key, nodes, sensitive).1 == after
            && Nodes(Visit(v, depth, key, nodes, sensitive).0, markersToo) == 1 + ItemNodes(values, markersToo)
  {
    VisitOpens(v, depth, key, nodes, sensitive);
    AssembledNodes(v, VisitAll(Children(v), depth + 1, nodes + 1, sensitive).0, markersToo);
  }

  // ---- the counter is the size of the output

  lemma OpenedSize(v: Json, depth: Depth, key: Option<string>, nodes: nat, sensitive: Verdict)
    requires Opens(v, depth, key, nodes, sensitive)
    requires var (values, after) := VisitAll(Children(v), depth + 1, nodes + 1, sensitive);
             after == nodes + 1 + ItemNodes(values, true)
    ensures Visit(v, depth, key, nodes, sensitive).1 == nodes + Nodes(Visit(v, depth, key, nodes, sensitive).0, true)
  {
    OpenedNodes(v, depth, key, nodes, sensitive, true);
  }

  lemma ClosedSize(v: Json, depth: Depth, key: Option<string>, nodes: nat, sensitive: Verdict)
    requires !Opens(v, depth, key, nodes, sensitive)
    ensures Visit(v, depth, key, nodes, sensitive).1 == nodes + Nodes(Visit(v, depth, key, nodes, sensitive).0, true)
  {
    VisitCloses(v, depth, key, nodes, sensitive);
  }

  lemma {:induction false} VisitSize(v: Json, depth: Depth, key: Option<string>, nodes: nat, sensitive: Verdict)
    ensures Visit(v, depth, key, nodes, sensitive).1 == nodes + Nodes(Visit(v, depth, key, nodes, sensitive).0, true)
    decreases MAX_OPEN_DEPTH + 2 - depth, 0
  {
    if Opens(v, depth, key, nodes, sensitive) {
      VisitAllSize(Children(v), depth + 1, nodes + 1, sensitive);
      OpenedSize(v, depth, key, nodes, sensitive);
    } else {
      ClosedSize(v, depth, key, nodes, sensitive);
    }
  }

  lemma {:induction false} VisitAllSize(children: seq<Child>, depth: Depth, nodes: nat, sensitive: Verdict)
    ensures var (values, after) := VisitAll(children, depth, nodes, sensitive);
            after == nodes + ItemNodes(values, true)
    decreases MAX_OPEN_DEPTH + 2 - depth, 1 + |children|
  {
    if children != [] {
      VisitSize(children[0].value, depth, children[0].key, nodes, sensitive);
      var mid := Visit(children[0].value, depth, children[0].key, nodes, sensitive).1;
      VisitAllSize(children[1..], depth, mid, sensitive);
    }
  }

  /** The output has exactly as many nodes as were looked at, and so at most 953. */
  lemma OutputSize(v: Json, sensitive: Verdict)
    ensures Size(Redact(v, sensitive)) == Visit(v, 0, None, 0, sensitive).1 <= MAX_VISITS
  {
    VisitSize(v, 0, None, 0, sensitive);
    TotalVisits(v, sensitive);
  }

  // ---- at most 512 of them are not budget stubs

  /** The visits, at v and below, that still find room in the budget. */
  function WithinBudget(v: Json, depth: Depth, key: Option<string>, nodes: nat, sensitive: Verdict): nat
    decreases MAX_OPEN_DEPTH + 2 - depth, 0
  {
    if nodes + 1 > MAX_OPEN_NODES then 0
    else if Hides(key, sensitive) || depth > MAX_OPEN_DEPTH || !IsContainer(v) then 1
    else 1 + AllWithinBudget(Children(v), depth + 1, nodes + 1, sensitive)
  }

  function AllWithinBudget(children: seq<Child>, depth: Depth, nodes: nat, sensitive: Verdict): nat
    decreases MAX_OPEN_DEPTH + 2 - depth, 1 + |children|
  {
    if children == [] then 0
    else
      var mid := Visit(children[0].value, depth, children[0].key, nodes, sensitive).1;
      WithinBudget(children[0].value, depth, children[0].key, nodes, sensitive)
      + AllWithinBudget(children[1..], depth, mid, sensitive)
  }

  function InBudget(nodes: nat): nat {
    if nodes < MAX_OPEN_NODES then nodes else MAX_OPEN_NODES
  }

  /** The visits within the budget are exactly those that the counter still admits. */
  lemma OpenedSpends(v: Json, depth: Depth, key: Option<string>, nodes: nat, sensitive: Verdict)
    requires Opens(v, depth, key, nodes, sensitive)
    requires InBudget(nodes + 1) + AllWithinBudget(Children(v), depth + 1, nodes + 1, sensitive)
          == InBudget(VisitAll(Children(v), depth + 1, nodes + 1, sensitive).1)
    ensures InBudget(nodes) + WithinBudget(v, depth, key, nodes, sensitive)
         == InBudget(Visit(v, depth, key, nodes, sensitive).1)
  {
    VisitOpens(v, depth, key, nodes, sensitive);
  }

  lemma ClosedSpends(v: Json, depth: Depth, key: Option<string>, nodes: nat, sensitive: Verdict)
    requires !Opens(v, depth, key, nodes, sensitive)
    ensures InBudget(nodes) + WithinBudget(v, depth, key, nodes, sensitive)
         == InBudget(Visit(v, depth, key, nodes, sensitive).1)
  {
    VisitCloses(v, depth, key, nodes, sensitive);
  }

  lemma {:induction false} VisitSpends(v: Json, depth: Depth, key: Option<string>, nodes: nat, sensitive: Verdict)
    ensures InBudget(nodes) + WithinBudget(v, depth, key, nodes, sensitive)
         == InBudget(Visit(v, depth, key, nodes, sensitive).1)
    decreases MAX_OPEN_DEPTH + 2 - depth, 0
  {
    if Opens(v, depth, key, nodes, sensitive) {
      VisitAllSpends(Children(v), depth + 1, nodes + 1, sensitive);
      OpenedSpends(v, depth, key, nodes, sensitive);
    } else {
      ClosedSpends(v, depth, key, nodes, sensitive);
    }
  }

  lemma {:induction false} VisitAllSpends(children: seq<Child>, depth: Depth, nodes: nat, sensitive: Verdict)
    ensures InBudget(nodes) + AllWithinBudget(children, depth, nodes, sensitive)
         == InBudget(VisitAll(children, depth, nodes, sensitive).1)
    decreases MAX_OPEN_DEPTH + 2 - depth, 1 + |children|
  {
    if children != [] {
      VisitSpends(children[0].value, depth, children[0].key, nodes, sensitive);
      var mid := Visit(children[0].value, depth, children[0].key, nodes, sensitive).1;
      VisitAllSpends(children[1..], depth, mid, sensitive);
    }
  }

  lemma OpenedRetains(v: Json, depth: Depth, key: Option<string>, nodes: nat, sensitive: Verdict)
    requires Opens(v, depth, key, nodes, sensitive)
    requires ItemNodes(VisitAll(Children(v), depth + 1, nodes + 1, sensitive).0, false)
          <= AllWithinBudget(Children(v), depth + 1, nodes + 1, sensitive)
    ensures Nodes(Visit(v, depth, key, nodes, sensitive).0, false) <= WithinBudget(v, depth, key, nodes, sensitive)
  {
    OpenedNodes(v, depth, key, nodes, sensitive, false);
  }

  lemma ClosedRetains(v: Json, depth: Depth, key: Option<string>, nodes: nat, sensitive: Verdict)
    requires !Opens(v, depth, key, nodes, sensitive)
    ensures Nodes(Visit(v, depth, key, nodes, sensitive).0, false) <= WithinBudget(v, depth, key, nodes, sensitive)
  {
    VisitCloses(v, depth, key, nodes, sensitive);
  }

  lemma {:induction false} VisitRetains(v: Json, depth: Depth, key: Option<string>, nodes: nat, sensitive: Verdict)
    ensures Nodes(Visit(v, depth, key, nodes, sensitive).0, false) <= WithinBudget(v, depth, key, nodes, sensitive)
    decreases MAX_OPEN_DEPTH + 2 - depth, 0
  {
    if Opens(v, depth, key, nodes, sensitive) {
      VisitAllRetains(Children(v), depth + 1, nodes + 1, sensitive);
      OpenedRetains(v, depth, key, nodes, sensitive);
    } else {
      ClosedRetains(v, depth, key, nodes, sensitive);
    }
  }

  lemma {:induction false} VisitAllRetains(children: seq<Child>, depth: Depth, nodes: nat, sensitive: Verdict)
    ensures ItemNodes(VisitAll(children, depth, nodes, sensitive).0, false)
         <= AllWithinBudget(children, depth, nodes, sensitive)
    decreases MAX_OPEN_DEPTH + 2 - depth, 1 + |children|
  {
    if children != [] {
      VisitRetains(children[0].value, depth, children[0].key, nodes, sensitive);
      var mid := Visit(children[0].value, depth, children[0].key, nodes, sensitive).1;
      VisitAllRetains(children[1..], depth, mid, sensitive);
    }
  }

  /**
   Of the visits, the first 512 and no others are within the budget; so at most 512 visited nodes are not
   budget stubs, and the output has at most 512 nodes that are not the truncation marker.
   */
  lemma RetainsAtMostTheBudget(v: Json, sensitive: Verdict)
    ensures WithinBudget(v, 0, None, 0, sensitive) == InBudget(Visit(v, 0, None, 0, sensitive).1) <= MAX_OPEN_NODES
    ensures Nodes(Redact(v, sensitive), false) <= MAX_OPEN_NODES
  {
    VisitSpends(v, 0, None, 0, sensitive);
    VisitRetains(v, 0, None, 0, sensitive);
  }

  // ---- when the budget matters

  /** The redaction without a budget. */
  function Free(v: Json, depth: Depth, key: Option<string>, sensitive: Verdict): Json
    decreases MAX_OPEN_DEPTH + 2 - depth, 0
  {
    if Hides(key, sensitive) then Str(REDACTED)
    else if depth > MAX_OPEN_DEPTH then Str(TRUNCATED)
    else if !IsContainer(v) then Leaf(v)
    else Assemble(v, FreeAll(Children(v), depth + 1, sensitive))
  }

  function FreeAll(children: seq<Child>, depth: Depth, sensitive: Verdict): (values: seq<Json>)
    ensures |values| == |children|
    decreases MAX_OPEN_DEPTH + 2 - depth, 1 + |children|
  {
    if children == [] then []
    else [Free(children[0].value, depth, children[0].key, sensitive)] + FreeAll(children[1..], depth, sensitive)
  }

  lemma FreeOpens(v: Json, depth: nat, key: Option<string>, sensitive: Verdict)
    requires depth <= MAX_OPEN_DEPTH && !Hides(key, sensitive) && IsContainer(v)
    ensures Nodes(Free(v, depth, key, sensitive), true)
         == 1 + ItemNodes(FreeAll(Children(v), depth + 1, sensitive), true)
  {
    AssembledNodes(v, FreeAll(Children(v), depth + 1, sensitive), true);
  }

  /** The budget changes nothing at v: the free value and its size fit. */
  ghost predicate FitsAsFree(v: Json, depth: Depth, key: Option<string>, nodes: nat, sensitive: Verdict)
  {
    var (out, after) := Visit(v, depth, key, nodes, sensitive);
    var free := Free(v, depth, key, sensitive);
    if nodes + Nodes(free, true) <= MAX_OPEN_NODES then out == free && after == nodes + Nodes(free, true)
    else after > MAX_OPEN_NODES
  }

  lemma ClosedFitsAsFree(v: Json, depth: Depth, key: Option<string>, nodes: nat, sensitive: Verdict)
    requires !Opens(v, depth, key, nodes, sensitive)
    ensures FitsAsFree(v, depth, key, nodes, sensitive)
  {
    VisitCloses(v, depth, key, nodes, sensitive);
    assert Nodes(Free(v, depth, key, sensitive), true) >= 1;
  }

  ghost predicate AllFitAsFree(children: seq<Child>, depth: Depth, nodes: nat, sensitive: Verdict)
  {
    var (values, after) := VisitAll(children, depth, nodes, sensitive);
    var free := FreeAll(children, depth, sensitive);
    if nodes + ItemNodes(free, true) <= MAX_OPEN_NODES then values == free && after == nodes + ItemNodes(free, true)
    else after > MAX_OPEN_NODES
  }

  lemma OpenFitsAsFree(v: Json, depth: nat, key: Option<string>, nodes: nat, sensitive: Verdict)
    requires depth <= MAX_OPEN_DEPTH && Opens(v, depth, key, nodes, sensitive)
    requires AllFitAsFree(Children(v), depth + 1, nodes + 1, sensitive)
    ensures FitsAsFree(v, depth, key, nodes, sensitive)
  {
    VisitOpens(v, depth, key, nodes, sensitive);
    FreeOpens(v, depth, key, sensitive);
    assert Free(v, depth, key, sensitive) == Assemble(v, FreeAll(Children(v), depth + 1, sensitive));
  }

  lemma {:induction false} VisitFree(v: Json, depth: Depth, key: Option<string>, nodes: nat, sensitive: Verdict)
    ensures FitsAsFree(v, depth, key, nodes, sensitive)
    decreases MAX_OPEN_DEPTH + 2 - depth, 0
  {
    if Opens(v, depth, key, nodes, sensitive) {
      VisitAllFree(Children(v), depth + 1, nodes + 1, sensitive);
      OpenFitsAsFree(v, depth, key, nodes, sensitive);
    } else {
      ClosedFitsAsFree(v, depth, key, nodes, sensitive);
    }
  }

  lemma {:induction false} VisitAllFree(children: seq<Child>, depth: Depth, nodes: nat, sensitive: Verdict)
    requires nodes <= MAX_OPEN_NODES
    ensures AllFitAsFree(children, depth, nodes, sensitive)
    decreases MAX_OPEN_DEPTH + 2 - depth, 1 + |children|
  {
    if children != [] {
      VisitFree(children[0].value, depth, children[0].key, nodes, sensitive);
      var mid := Visit(children[0].value, depth, children[0].key, nodes, sensitive).1;
      if mid <= MAX_OPEN_NODES {
        VisitAllFree(children[1..], depth, mid, sensitive);
      } else {
        VisitAllCost(children[1..], depth, mid, sensitive);
      }
    }
  }

  /**
   The output has more than 512 nodes exactly when it would have without a budget.  Otherwise the budget
   changes nothing.
   */
  lemma BudgetMattersExactlyWhenExceeded(v: Json, sensitive: Verdict)
    ensures Size(Redact(v, sensitive)) <= MAX_OPEN_NODES <==> Size(Free(v, 0, None, sensitive)) <= MAX_OPEN_NODES
    ensures Size(Free(v, 0, None, sensitive)) <= MAX_OPEN_NODES ==> Redact(v, sensitive) == Free(v, 0, None, sensitive)
  {
    VisitFree(v, 0, None, 0, sensitive);
    VisitSize(v, 0, None, 0, sensitive);
  }

  // ---- an input that reaches the bound

  function Nulls(n: nat): (items: seq<Json>)
    ensures |items| == n && forall i :: 0 <= i < n ==> items[i] == Null
  {
    seq(n, i => Null)
  }

  /** Full lists of leaves. */
  function Blocks(n: nat): (items: seq<Json>)
    ensures |items| == n
  {
    if n == 0 then [] else [List(Nulls(MAX_OPEN_ITEMS))] + Blocks(n - 1)
  }

  /** Full lists, each nested at the front of the next. */
  function Chain(levels: nat): Json {
    if levels == 0 then List(Nulls(MAX_OPEN_ITEMS)) else List([Chain(levels - 1)] + Nulls(MAX_OPEN_ITEMS - 1))
  }

  /** 505 nodes, then a chain that meets the end of the budget at its deepest list, then leaves. */
  function Largest(): Json {
    List([List(Blocks(7) + Nulls(49)), Chain(MAX_OPEN_DEPTH - 1)] + Nulls(62))
  }

  lemma {:induction false} ItemsConcat(a: seq<Json>, b: seq<Json>, depth: Depth, nodes: nat, sensitive: Verdict)
    ensures VisitAll(ListChildren(a + b), depth, nodes, sensitive).1
         == VisitAll(ListChildren(b), depth, VisitAll(ListChildren(a), depth, nodes, sensitive).1, sensitive).1
    decreases |a|
  {
    if a == [] {
      assert a + b == b;
    } else {
      assert (a + b)[0] == a[0];
      assert ListChildren(a + b)[1..] == ListChildren(a[1..] + b) && ListChildren(a)[1..] == ListChildren(a[1..]);
      ItemsConcat(a[1..], b, depth, Visit(a[0], depth, None, nodes, sensitive).1, sensitive);
    }
  }

  lemma {:induction false} NullsCost(n: nat, depth: Depth, nodes: nat, sensitive: Verdict)
    ensures VisitAll(ListChildren(Nulls(n)), depth, nodes, sensitive).1 == nodes + n
  {
    if n > 0 {
      assert ListChildren(Nulls(n))[1..] == ListChildren(Nulls(n - 1));
      NullsCost(n - 1, depth, nodes + 1, sensitive);
    }
  }

  lemma ListCost(items: seq<Json>, depth: nat, nodes: nat, sensitive: Verdict)
    requires depth <= MAX_OPEN_DEPTH && nodes < MAX_OPEN_NODES && |items| <= MAX_OPEN_ITEMS
    ensures Visit(List(items), depth, None, nodes, sensitive).1
         == VisitAll(ListChildren(items), depth + 1, nodes + 1, sensitive).1
  {
  }

  lemma {:induction false} BlocksCost(n: nat, depth: nat, nodes: nat, sensitive: Verdict)
    requires depth <= MAX_OPEN_DEPTH && nodes + n * (MAX_OPEN_ITEMS + 1) <= MAX_OPEN_NODES
    ensures VisitAll(ListChildren(Blocks(n)), depth, nodes, sensitive).1 == nodes + n * (MAX_OPEN_ITEMS + 1)
  {
    if n > 0 {
      ListCost(Nulls(MAX_OPEN_ITEMS), depth, nodes, sensitive);
      NullsCost(MAX_OPEN_ITEMS, depth + 1, nodes + 1, sensitive);
      assert ListChildren(Blocks(n))[1..] == ListChildren(Blocks(n - 1));
      BlocksCost(n - 1, depth, nodes + MAX_OPEN_ITEMS + 1, sensitive);
    }
  }

  lemma FrontCost(front: Json, n: nat, depth: Depth, nodes: nat, sensitive: Verdict)
    ensures VisitAll(ListChildren([front] + Nulls(n)), depth, nodes, sensitive).1
         == Visit(front, depth, None, nodes, sensitive).1 + n
  {
    var mid := Visit(front, depth, None, nodes, sensitive).1;
    assert ListChildren([front] + Nulls(n))[1..] == ListChildren(Nulls(n));
    NullsCost(n, depth, mid, sensitive);
  }

  /** A chain started so that its deepest list is the last node within the budget. */
  lemma {:induction false} ChainCost(levels: nat, depth: nat, nodes: nat, sensitive: Verdict)
    requires levels <= MAX_OPEN_DEPTH && depth == MAX_OPEN_DEPTH - levels && nodes == MAX_OPEN_NODES - 1 - levels
    ensures Visit(Chain(levels), depth, None, nodes, sensitive).1
         == MAX_OPEN_NODES + MAX_OPEN_ITEMS + levels * (MAX_OPEN_ITEMS - 1)
  {
    if levels == 0 {
      ListCost(Nulls(MAX_OPEN_ITEMS), depth, nodes, sensitive);
      NullsCost(MAX_OPEN_ITEMS, depth + 1, nodes + 1, sensitive);
    } else {
      ChainCost(levels - 1, depth + 1, nodes + 1, sensitive);
      LinkCost(levels, depth, nodes, sensitive);
    }
  }

  lemma LinkCost(levels: nat, depth: nat, nodes: nat, sensitive: Verdict)
    requires levels > 0 && depth <= MAX_OPEN_DEPTH && nodes < MAX_OPEN_NODES
    ensures Visit(Chain(levels), depth, None, nodes, sensitive).1
         == Visit(Chain(levels - 1), depth + 1, None, nodes + 1, sensitive).1 + MAX_OPEN_ITEMS - 1
  {
    ListCost([Chain(levels - 1)] + Nulls(MAX_OPEN_ITEMS - 1), depth, nodes, sensitive);
    FrontCost(Chain(levels - 1), MAX_OPEN_ITEMS - 1, depth + 1, nodes + 1, sensitive);
  }

  lemma FirstPartCost(depth: nat, nodes: nat, sensitive: Verdict)
    requires depth == 1 && nodes == 1
    ensures Visit(List(Blocks(7) + Nulls(49)), depth, None, nodes, sensitive).1 == 506
  {
    ListCost(Blocks(7) + Nulls(49), depth, nodes, sensitive);
    ItemsConcat(Blocks(7), Nulls(49), depth + 1, nodes + 1, sensitive);
    BlocksCost(7, depth + 1, nodes + 1, sensitive);
    NullsCost(49, depth + 1, 457, sensitive);
  }

  lemma PartsCost(first: Json, second: Json, n: nat, depth: Depth, nodes: nat, sensitive: Verdict)
    ensures VisitAll(ListChildren([first, second] + Nulls(n)), depth, nodes, sensitive).1
         == Visit(second, depth, None, Visit(first, depth, None, nodes, sensitive).1, sensitive).1 + n
  {
    assert ListChildren([first, second] + Nulls(n))[1..] == ListChildren([second] + Nulls(n));
    FrontCost(second, n, depth, Visit(first, depth, None, nodes, sensitive).1, sensitive);
  }

  /** The bound is reached, whatever keys are sensitive: an output of 953 nodes, 441 of them budget stubs. */
  lemma LargestOutput(sensitive: Verdict)
    ensures Size(Redact(Largest(), sensitive)) == MAX_VISITS == 953
    ensures Visit(Largest(), 0, None, 0, sensitive).1 - WithinBudget(Largest(), 0, None, 0, sensitive) == 441
  {
    var first, second := List(Blocks(7) + Nulls(49)), Chain(MAX_OPEN_DEPTH - 1);
    ListCost([first, second] + Nulls(62), 0, 0, sensitive);
    PartsCost(first, second, 62, 1, 1, sensitive);
    FirstPartCost(1, 1, sensitive);
    ChainCost(MAX_OPEN_DEPTH - 1, 1, 506, sensitive);
    OutputSize(Largest(), sensitive);
    RetainsAtMostTheBudget(Largest(), sensitive);
  }
}
