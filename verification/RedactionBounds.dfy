/** What the traversal costs and what shape it leaves, for any input at all. */
module RedactionBounds {
  import opened Wrappers
  import opened Ordering
  import opened Redaction

  /** The most values any input makes the traversal look at; RedactionSizes has an input that reaches it. */
  const MAX_VISITS: nat := MAX_OPEN_NODES + (MAX_OPEN_ITEMS - 1) * (MAX_OPEN_DEPTH + 1)

  /** One when running straight down from here could spend the last of the budget on a container, else zero. */
  function Slack(nodes: nat, depth: Depth): nat
  {
    if nodes + (MAX_OPEN_DEPTH + 1 - depth) < MAX_OPEN_NODES then 0 else 1
  }

  /**
   Beyond the budget a visit is one stub.  Within it, the visits beyond the budget are the siblings left
   over at each level still open when the budget ran out.
   */
  lemma {:induction false} VisitCost(v: Json, depth: Depth, key: Option<string>, nodes: nat, sensitive: Verdict)
    ensures var after := Visit(v, depth, key, nodes, sensitive).1;
            if nodes >= MAX_OPEN_NODES then after == nodes + 1
            else nodes < after <= MAX_OPEN_NODES + (MAX_OPEN_ITEMS - 1) * (MAX_OPEN_DEPTH + 1 - depth)
                                  + Slack(nodes, depth)
    decreases MAX_OPEN_DEPTH + 2 - depth, 0
  {
    if nodes + 1 <= MAX_OPEN_NODES && !Hides(key, sensitive) && depth <= MAX_OPEN_DEPTH && IsContainer(v) {
      VisitAllCost(Children(v), depth + 1, nodes + 1, sensitive);
    }
  }

  lemma {:induction false} VisitAllCost(children: seq<Child>, depth: Depth, nodes: nat, sensitive: Verdict)
    ensures var after := VisitAll(children, depth, nodes, sensitive).1;
            if nodes >= MAX_OPEN_NODES || children == [] then after == nodes + |children|
            else nodes < after <= MAX_OPEN_NODES + (MAX_OPEN_ITEMS - 1) * (MAX_OPEN_DEPTH + 1 - depth)
                                  + Slack(nodes, depth) + |children| - 1
    decreases MAX_OPEN_DEPTH + 2 - depth, 1 + |children|
  {
    if children != [] {
      VisitCost(children[0].value, depth, children[0].key, nodes, sensitive);
      var mid := Visit(children[0].value, depth, children[0].key, nodes, sensitive).1;
      VisitAllCost(children[1..], depth, mid, sensitive);
    }
  }

  /** However large or deep the input, at most 512 + 63 * 7 = 953 values are looked at. */
  lemma TotalVisits(v: Json, sensitive: Verdict)
    ensures 1 <= Visit(v, 0, None, 0, sensitive).1 <= MAX_VISITS == 953
  {
    VisitCost(v, 0, None, 0, sensitive);
  }

  /** Keys of a bounded dictionary: texts of at most 128 characters, each once, in ascending order. */
  ghost predicate KeysBounded(members: seq<Member>) {
    && (forall m <- members :: m.key.Name? && |m.key.name| <= MAX_OPEN_KEY_CHARS)
    && (forall i, j :: 0 <= i < j < |members| ==>
          members[i].key != members[j].key && LessEq(members[i].key.name, members[j].key.name))
  }

  /** JSON only, small containers, short texts, and no container below the depth limit. */
  ghost predicate Bounded(v: Json, depth: nat)
    decreases v
  {
    match v
    case Str(text) => |text| <= MAX_OPEN_STRING_CHARS + |TRUNCATED|
    case List(items) =>
      && depth <= MAX_OPEN_DEPTH && |items| <= MAX_OPEN_ITEMS
      && forall item <- items :: Bounded(item, depth + 1)
    case Dict(members) =>
      && depth <= MAX_OPEN_DEPTH && |members| <= MAX_OPEN_ITEMS && KeysBounded(members)
      && forall m <- members :: Bounded(m.value, depth + 1)
    case NonFinite => false
    case Other(_) => false
    case _ => true
  }

  ghost predicate Sorted(pairs: seq<Pair>) {
    forall i, j :: 0 <= i < j < |pairs| ==> LessEq(pairs[i].key, pairs[j].key)
  }

  lemma {:induction false} InsertMembers(pair: Pair, sorted: seq<Pair>)
    ensures multiset(Insert(pair, sorted)) == multiset(sorted) + multiset{pair}
    ensures forall p <- Insert(pair, sorted) :: p == pair || p in sorted
  {
    if sorted != [] {
      assert sorted == [sorted[0]] + sorted[1..];
      if !LessEq(pair.key, sorted[0].key) {
        InsertMembers(pair, sorted[1..]);
      }
    }
  }

  lemma {:induction false} InsertSorted(pair: Pair, sorted: seq<Pair>)
    requires Sorted(sorted)
    ensures Sorted(Insert(pair, sorted))
    ensures multiset(Insert(pair, sorted)) == multiset(sorted) + multiset{pair}
  {
    InsertMembers(pair, sorted);
    if sorted != [] {
      Total(pair.key, sorted[0].key);
      if LessEq(pair.key, sorted[0].key) {
        forall i | 1 <= i < |sorted| ensures LessEq(pair.key, sorted[i].key) {
          Transitive(pair.key, sorted[0].key, sorted[i].key);
        }
      } else {
        InsertSorted(pair, sorted[1..]);
        InsertMembers(pair, sorted[1..]);
        var rest := Insert(pair, sorted[1..]);
        forall i | 0 <= i < |rest| ensures LessEq(sorted[0].key, rest[i].key) {
          assert rest[i] == pair || rest[i] in sorted[1..];
        }
      }
    }
  }

  lemma FirstAndRest(pairs: seq<Pair>)
    requires pairs != []
    ensures multiset(pairs) == multiset{pairs[0]} + multiset(pairs[1..])
  {
    assert pairs == [pairs[0]] + pairs[1..];
  }

  lemma {:induction false} SortSorts(pairs: seq<Pair>)
    ensures Sorted(Sort(pairs))
    ensures multiset(Sort(pairs)) == multiset(pairs)
  {
    if pairs != [] {
      SortSorts(pairs[1..]);
      InsertSorted(pairs[0], Sort(pairs[1..]));
      FirstAndRest(pairs);
    }
  }

  lemma {:induction false} FirstOfEachClipPicks(pairs: seq<Pair>, taken: set<string>)
    ensures forall p <- FirstOfEachClip(pairs, taken) :: p in pairs && ClipKey(p.key) !in taken
  {
    if pairs != [] {
      FirstOfEachClipPicks(pairs[1..], taken + {ClipKey(pairs[0].key)});
      FirstOfEachClipPicks(pairs[1..], taken);
    }
  }

  lemma {:induction false} FirstOfEachClipKeeps(pairs: seq<Pair>, taken: set<string>)
    requires Sorted(pairs)
    ensures var kept := FirstOfEachClip(pairs, taken);
            && Sorted(kept)
            && forall i, j :: 0 <= i < j < |kept| ==> ClipKey(kept[i].key) != ClipKey(kept[j].key)
  {
    if pairs != [] {
      var more := taken + {ClipKey(pairs[0].key)};
      FirstOfEachClipKeeps(pairs[1..], if ClipKey(pairs[0].key) in taken then taken else more);
      FirstOfEachClipPicks(pairs[1..], more);
      forall p <- FirstOfEachClip(pairs[1..], more)
        ensures LessEq(pairs[0].key, p.key) && ClipKey(p.key) != ClipKey(pairs[0].key)
      {
        var j :| 0 <= j < |pairs[1..]| && pairs[1..][j] == p;
        assert pairs[j + 1] == p;
      }
    }
  }

  /** The entries of a rebuilt dictionary, whatever dictionary it came from. */
  lemma RebuiltKeysBounded(members: seq<Member>, values: seq<Json>)
    requires |values| == |Chosen(members)|
    ensures KeysBounded(Rebuild(Chosen(members), values))
  {
    var selected := Select(members, MAX_OPEN_ITEMS);
    SortSorts(selected);
    FirstOfEachClipKeeps(Sort(selected), {});
    var pairs := Chosen(members);
    forall i, j | 0 <= i < j < |pairs| ensures LessEq(ClipKey(pairs[i].key), ClipKey(pairs[j].key)) {
      ClipKeepsOrder(pairs[i].key, pairs[j].key, MAX_OPEN_KEY_CHARS);
    }
  }

  lemma {:induction false} VisitBounded(v: Json, depth: Depth, key: Option<string>, nodes: nat, sensitive: Verdict)
    ensures Bounded(Visit(v, depth, key, nodes, sensitive).0, depth)
    decreases MAX_OPEN_DEPTH + 2 - depth, 0
  {
    if nodes + 1 <= MAX_OPEN_NODES && !Hides(key, sensitive) && depth <= MAX_OPEN_DEPTH && IsContainer(v) {
      VisitAllBounded(Children(v), depth + 1, nodes + 1, sensitive);
      if v.Dict? {
        RebuiltKeysBounded(v.members, VisitAll(Children(v), depth + 1, nodes + 1, sensitive).0);
      }
    }
  }

  lemma {:induction false} VisitAllBounded(children: seq<Child>, depth: Depth, nodes: nat, sensitive: Verdict)
    ensures forall v <- VisitAll(children, depth, nodes, sensitive).0 :: Bounded(v, depth)
    decreases MAX_OPEN_DEPTH + 2 - depth, 1 + |children|
  {
    if children != [] {
      VisitBounded(children[0].value, depth, children[0].key, nodes, sensitive);
      var mid := Visit(children[0].value, depth, children[0].key, nodes, sensitive).1;
      VisitAllBounded(children[1..], depth, mid, sensitive);
    }
  }

  /** What crosses the boundary is bounded JSON whatever came in, and an object stays an object. */
  lemma RedactedIsBounded(v: Json, sensitive: Verdict)
    ensures Bounded(Redact(v, sensitive), 0)
    ensures v.Dict? ==> Redact(v, sensitive).Dict?
  {
    VisitBounded(v, 0, None, 0, sensitive);
  }
}
