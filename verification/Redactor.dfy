/** The traversal as the code runs it: a recursion whose every step updates one shared node counter. */
module Redactors {
  import opened Wrappers
  import opened R = Redaction

  class Redactor {
    const sensitive: Verdict
    var nodes: nat

    constructor (sensitive: Verdict)
      ensures this.sensitive == sensitive && nodes == 0
    {
      this.sensitive, nodes := sensitive, 0;
    }

    method Visit(current: Json, depth: Depth, key: Option<string>) returns (safe: Json)
      modifies this
      ensures (safe, nodes) == R.Visit(current, depth, key, old(nodes), sensitive)
      decreases MAX_OPEN_DEPTH + 2 - depth, 0
    {
      nodes := nodes + 1;
      if nodes > MAX_OPEN_NODES {
        return Str(TRUNCATED);
      }
      if key.Some? && sensitive(key.value) {
        return Str(REDACTED);
      }
      if depth > MAX_OPEN_DEPTH {
        return Str(TRUNCATED);
      }
      match current
      case List(items) =>
        var values := VisitItems(if |items| <= MAX_OPEN_ITEMS then items else items[..MAX_OPEN_ITEMS], depth + 1);
        safe := List(values);
      case Dict(members) =>
        var result := VisitMembers(members, depth + 1);
        safe := Dict(result);
      case _ =>
        safe := Leaf(current);
    }

    method VisitItems(items: seq<Json>, depth: Depth) returns (values: seq<Json>)
      modifies this
      ensures (values, nodes) == VisitAll(ListChildren(items), depth, old(nodes), sensitive)
      decreases MAX_OPEN_DEPTH + 2 - depth, 1
    {
      values := [];
      for i := 0 to |items|
        invariant (values, nodes) == VisitAll(ListChildren(items[..i]), depth, old(nodes), sensitive)
      {
        VisitAllSnoc(ListChildren(items[..i]), Child(None, items[i]), depth, old(nodes), sensitive);
        assert ListChildren(items[..i + 1]) == ListChildren(items[..i]) + [Child(None, items[i])];
        var value := Visit(items[i], depth, None);
        values := values + [value];
      }
      assert items[..|items|] == items;
    }

    method VisitMembers(members: seq<Member>, depth: Depth) returns (result: seq<Member>)
      modifies this
      ensures var (values, after) := VisitAll(PairChildren(Chosen(members)), depth, old(nodes), sensitive);
              nodes == after && result == Rebuild(Chosen(members), values)
      decreases MAX_OPEN_DEPTH + 2 - depth, 2
    {
      var selected := SelectMembers(members);
      result := VisitPairs(Sort(selected), depth);
    }

    /** The sorted entries, visited one by one into the result; a clipped key already taken is passed over. */
    method VisitPairs(pairs: seq<Pair>, depth: Depth) returns (result: seq<Member>)
      modifies this
      ensures var kept := FirstOfEachClip(pairs, {});
              var (values, after) := VisitAll(PairChildren(kept), depth, old(nodes), sensitive);
              nodes == after && result == Rebuild(kept, values)
      decreases MAX_OPEN_DEPTH + 2 - depth, 1
    {
      result := [];
      ghost var kept, values := [], [];
      for i := 0 to |pairs|
        invariant kept == FirstOfEachClip(pairs[..i], {})
        invariant (values, nodes) == VisitAll(PairChildren(kept), depth, old(nodes), sensitive)
        invariant |kept| == |values| && result == Rebuild(kept, values)
      {
        var cleanKey := ClipKey(pairs[i].key);
        KeptUnlessTaken(pairs, i, kept, values);
        if Name(cleanKey) !in Keys(result) {
          VisitOneMore(kept, pairs[i], depth, old(nodes), sensitive);
          var value := Visit(pairs[i].value, depth, Some(pairs[i].key));
          kept, values := kept + [pairs[i]], values + [value];
          result := result + [Member(Name(cleanKey), value)];
        }
      }
      assert pairs[..|pairs|] == pairs;
    }
  }

  function Keys(members: seq<Member>): set<Key> {
    set m <- members :: m.key
  }

  /** The first window of string-keyed entries, without looking further. */
  method SelectMembers(members: seq<Member>) returns (selected: seq<Pair>)
    ensures selected == Select(members, MAX_OPEN_ITEMS)
  {
    selected := [];
    for i := 0 to |members|
      invariant |selected| <= MAX_OPEN_ITEMS
      invariant Select(members, MAX_OPEN_ITEMS) == selected + Select(members[i..], MAX_OPEN_ITEMS - |selected|)
    {
      if |selected| >= MAX_OPEN_ITEMS {
        return;
      }
      assert members[i..][1..] == members[i + 1..];
      if members[i].key.Name? {
        selected := selected + [Pair(members[i].key.name, members[i].value)];
      }
    }
    assert members[|members|..] == [];
  }

  lemma {:induction false} VisitAllSnoc(children: seq<Child>, last: Child, depth: Depth, nodes: nat, sensitive: Verdict)
    ensures var (values, mid) := VisitAll(children, depth, nodes, sensitive);
            var (value, after) := R.Visit(last.value, depth, last.key, mid, sensitive);
            VisitAll(children + [last], depth, nodes, sensitive) == (values + [value], after)
  {
    var all := children + [last];
    var (first, mid) := R.Visit(all[0].value, depth, all[0].key, nodes, sensitive);
    var rest := VisitAll(all[1..], depth, mid, sensitive).0;
    if children == [] {
      assert all[1..] == [] && [first] + rest == [] + [first];
    } else {
      assert all[1..] == children[1..] + [last];
      VisitAllSnoc(children[1..], last, depth, mid, sensitive);
      assert [first] + (rest[..|rest| - 1] + [rest[|rest| - 1]]) == ([first] + rest[..|rest| - 1]) + [rest[|rest| - 1]];
    }
  }

  lemma {:induction false} FirstOfEachClipSnoc(pairs: seq<Pair>, last: Pair, taken: set<string>)
    ensures var kept := FirstOfEachClip(pairs, taken);
            FirstOfEachClip(pairs + [last], taken) ==
              kept + (if ClipKey(last.key) in taken || exists p <- kept :: ClipKey(p.key) == ClipKey(last.key)
                      then [] else [last])
  {
    if pairs == [] {
      assert [last][1..] == [];
    } else {
      assert (pairs + [last])[1..] == pairs[1..] + [last];
      var head := ClipKey(pairs[0].key);
      var more := if head in taken then taken else taken + {head};
      FirstOfEachClipSnoc(pairs[1..], last, more);
    }
  }

  lemma TakenIffKept(kept: seq<Pair>, values: seq<Json>, cleanKey: string)
    requires |kept| == |values|
    ensures Name(cleanKey) in Keys(Rebuild(kept, values)) <==> exists p <- kept :: ClipKey(p.key) == cleanKey
  {
    var members := Rebuild(kept, values);
    if p :| p in kept && ClipKey(p.key) == cleanKey {
      var i :| 0 <= i < |kept| && kept[i] == p;
      assert members[i].key == Name(cleanKey) && members[i] in members;
    }
  }

  lemma KeptUnlessTaken(pairs: seq<Pair>, i: nat, kept: seq<Pair>, values: seq<Json>)
    requires i < |pairs| && kept == FirstOfEachClip(pairs[..i], {}) && |kept| == |values|
    ensures FirstOfEachClip(pairs[..i + 1], {})
         == kept + if Name(ClipKey(pairs[i].key)) in Keys(Rebuild(kept, values)) then [] else [pairs[i]]
  {
    FirstOfEachClipSnoc(pairs[..i], pairs[i], {});
    TakenIffKept(kept, values, ClipKey(pairs[i].key));
    assert pairs[..i + 1] == pairs[..i] + [pairs[i]];
  }

  lemma VisitOneMore(kept: seq<Pair>, pair: Pair, depth: Depth, nodes: nat, sensitive: Verdict)
    ensures var (values, mid) := VisitAll(PairChildren(kept), depth, nodes, sensitive);
            var (value, after) := R.Visit(pair.value, depth, Some(pair.key), mid, sensitive);
            VisitAll(PairChildren(kept + [pair]), depth, nodes, sensitive) == (values + [value], after)
  {
    VisitAllSnoc(PairChildren(kept), Child(Some(pair.key), pair.value), depth, nodes, sensitive);
    assert PairChildren(kept + [pair]) == PairChildren(kept) + [Child(Some(pair.key), pair.value)];
  }
}
