/** What the redaction makes of each part of its input, and which inputs it leaves alone. */
module RedactionMeaning {
  import opened Wrappers
  import opened Ordering
  import opened Redaction
  import opened RedactionBounds
  import opened RedactionLaws
  import opened RedactionSizes

  // ---- which entries of a dictionary are kept, and under which keys

  /** The string keys among the first i entries. */
  function NamesBefore(members: seq<Member>, i: nat): nat
    requires i <= |members|
  {
    if i == 0 then 0 else NamesBefore(members, i - 1) + if members[i - 1].key.Name? then 1 else 0
  }

  /** Entry i is one of the first 64 under string keys. */
  predicate Eligible(members: seq<Member>, i: nat) {
    i < |members| && members[i].key.Name? && NamesBefore(members, i) < 64
  }

  function Short(key: string): string {
    if |key| <= 128 then key else key[..128]
  }

  /** Entry i is what the output holds under that key: of the eligible entries whose keys clip to it, the least. */
  ghost predicate ShownUnder(members: seq<Member>, i: nat, key: Key) {
    && Eligible(members, i) && key == Name(Short(members[i].key.name))
    && forall j: nat :: Eligible(members, j) && Short(members[j].key.name) == Short(members[i].key.name) ==>
         LessEq(members[i].key.name, members[j].key.name)
  }

  lemma {:induction false} NamesBeforeTail(members: seq<Member>, i: nat)
    requires 0 < i <= |members|
    ensures NamesBefore(members, i)
         == NamesBefore(members[1..], i - 1) + if members[0].key.Name? then 1 else 0
  {
    if i > 1 {
      NamesBeforeTail(members, i - 1);
      assert members[1..][i - 2] == members[i - 1];
    }
  }

  /** Pair p was selected for entry i. */
  ghost predicate SelectedFor(members: seq<Member>, room: nat, p: Pair, i: nat) {
    i < |members| && members[i] == Member(Name(p.key), p.value) && NamesBefore(members, i) < room
  }

  lemma {:induction false} SelectedFrom(members: seq<Member>, room: nat, p: Pair) returns (i: nat)
    requires p in Select(members, room)
    ensures SelectedFor(members, room, p, i)
  {
    if members[0].key.Name? && p == Pair(members[0].key.name, members[0].value) {
      i := 0;
    } else {
      var j := SelectedFrom(members[1..], if members[0].key.Name? then room - 1 else room, p);
      i := j + 1;
      NamesBeforeTail(members, i);
    }
  }

  lemma {:induction false} SelectsEligible(members: seq<Member>, room: nat, i: nat)
    requires i < |members| && members[i].key.Name? && NamesBefore(members, i) < room
    ensures Pair(members[i].key.name, members[i].value) in Select(members, room)
  {
    if i > 0 {
      NamesBeforeTail(members, i);
      SelectsEligible(members[1..], if members[0].key.Name? then room - 1 else room, i - 1);
    }
  }

  lemma {:induction false} FirstOfEachClipLeast(pairs: seq<Pair>, taken: set<string>, p: Pair, q: Pair)
    requires Sorted(pairs) && p in FirstOfEachClip(pairs, taken) && q in pairs && ClipKey(p.key) == ClipKey(q.key)
    ensures LessEq(p.key, q.key)
  {
    Total(p.key, q.key);
    var more := taken + {ClipKey(pairs[0].key)};
    FirstOfEachClipPicks(pairs, taken);
    FirstOfEachClipPicks(pairs[1..], more);
    if p == pairs[0] {
      var j :| 0 <= j < |pairs| && pairs[j] == q;
      assert j > 0 ==> LessEq(pairs[0].key, pairs[j].key);
    } else if q == pairs[0] {
      assert ClipKey(pairs[0].key) in taken ==> ClipKey(p.key) in taken;
    } else {
      FirstOfEachClipLeast(pairs[1..], if ClipKey(pairs[0].key) in taken then taken else more, p, q);
    }
  }

  lemma {:induction false} FirstOfEachClipCovers(pairs: seq<Pair>, taken: set<string>, q: Pair) returns (p: Pair)
    requires q in pairs && ClipKey(q.key) !in taken
    ensures p in FirstOfEachClip(pairs, taken) && ClipKey(p.key) == ClipKey(q.key)
  {
    if ClipKey(pairs[0].key) == ClipKey(q.key) {
      p := pairs[0];
    } else {
      p := FirstOfEachClipCovers(
        pairs[1..], if ClipKey(pairs[0].key) in taken then taken else taken + {ClipKey(pairs[0].key)}, q);
    }
  }

  lemma SortedSelection(members: seq<Member>)
    ensures var sorted := Sort(Select(members, MAX_OPEN_ITEMS));
            Sorted(sorted) && forall p :: p in sorted <==> p in Select(members, MAX_OPEN_ITEMS)
  {
    var selected := Select(members, MAX_OPEN_ITEMS);
    SortSorts(selected);
    forall p ensures p in Sort(selected) <==> p in selected {
      assert p in Sort(selected) <==> p in multiset(Sort(selected));
    }
  }

  /** Every entry chosen is the one shown under its clipped key. */
  lemma ChosenIsShown(members: seq<Member>, p: Pair) returns (i: nat)
    requires p in Chosen(members)
    ensures ShownUnder(members, i, Name(ClipKey(p.key)))
    ensures members[i] == Member(Name(p.key), p.value)
  {
    var sorted := Sort(Select(members, MAX_OPEN_ITEMS));
    SortedSelection(members);
    FirstOfEachClipPicks(sorted, {});
    i := SelectedFrom(members, MAX_OPEN_ITEMS, p);
    forall j: nat | Eligible(members, j) && Short(members[j].key.name) == Short(members[i].key.name)
      ensures LessEq(members[i].key.name, members[j].key.name)
    {
      SelectsEligible(members, MAX_OPEN_ITEMS, j);
      FirstOfEachClipLeast(sorted, {}, p, Pair(members[j].key.name, members[j].value));
    }
  }

  /** Every eligible entry's clipped key is chosen. */
  lemma EligibleIsChosen(members: seq<Member>, i: nat) returns (p: Pair)
    requires Eligible(members, i)
    ensures p in Chosen(members) && ClipKey(p.key) == Short(members[i].key.name)
  {
    SortedSelection(members);
    SelectsEligible(members, MAX_OPEN_ITEMS, i);
    p := FirstOfEachClipCovers(Sort(Select(members, MAX_OPEN_ITEMS)), {}, Pair(members[i].key.name, members[i].value));
  }

  // ---- what stands for what

  /**
   `out` is what a value at that depth and under that key is shown as.  Where `stubs` are allowed, a part
   beyond the node budget may be shown as the truncation marker.
   */
  ghost predicate ShownAs(v: Json, out: Json, depth: Depth, key: Option<string>, sensitive: Verdict, stubs: bool)
    decreases MAX_OPEN_DEPTH + 2 - depth, 0
  {
    || (stubs && out == Str("[TRUNCATED]"))
    || if key.Some? && sensitive(key.value) then out == Str("[REDACTED]")
       else if depth > 6 then out == Str("[TRUNCATED]")
       else
         match v
         case NonFinite => out == Str("[UNSUPPORTED]")
         case Other(_) => out == Str("[UNSUPPORTED]")
         case Str(text) => out == Str(if |text| <= 2048 then text else text[..2048] + "[TRUNCATED]")
         case List(items) =>
           && out.List? && |out.items| == (if |items| <= 64 then |items| else 64)
           && forall i :: 0 <= i < |out.items| ==> ShownAs(items[i], out.items[i], depth + 1, None, sensitive, stubs)
         case Dict(members) =>
           && out.Dict? && KeysBounded(out.members)
           && (forall m <- out.members :: EntryShown(members, m, depth + 1, sensitive, stubs))
           && (forall i: nat :: Eligible(members, i) ==> HasKey(out.members, Name(Short(members[i].key.name))))
         case _ => out == v
  }

  /** An entry of the output: its value is what the entry shown under its key is shown as. */
  ghost predicate EntryShown(members: seq<Member>, m: Member, depth: Depth, sensitive: Verdict, stubs: bool)
    decreases MAX_OPEN_DEPTH + 2 - depth, 1
  {
    exists i: nat :: i < |members| && ShownUnder(members, i, m.key)
      && ShownAs(members[i].value, m.value, depth, Some(members[i].key.name), sensitive, stubs)
  }

  ghost predicate HasKey(members: seq<Member>, key: Key) {
    exists m <- members :: m.key == key
  }

  ghost predicate AllShownAs(children: seq<Child>, values: seq<Json>, depth: Depth, sensitive: Verdict, stubs: bool) {
    && |values| == |children|
    && forall i :: 0 <= i < |children| ==>
         ShownAs(children[i].value, values[i], depth, children[i].key, sensitive, stubs)
  }

  lemma ListIsShown(v: Json, values: seq<Json>, depth: Depth, key: Option<string>, sensitive: Verdict, stubs: bool)
    requires v.List? && depth <= MAX_OPEN_DEPTH && !Hides(key, sensitive)
    requires AllShownAs(Children(v), values, depth + 1, sensitive, stubs)
    ensures ShownAs(v, Assemble(v, values), depth, key, sensitive, stubs)
  {
    forall i | 0 <= i < |values| ensures ShownAs(v.items[i], values[i], depth + 1, None, sensitive, stubs) {
      assert Children(v)[i] == Child(None, v.items[i]);
    }
  }

  lemma EntryIsShown(v: Json, values: seq<Json>, depth: Depth, sensitive: Verdict, stubs: bool, j: nat)
    returns (i: nat)
    requires v.Dict? && depth <= MAX_OPEN_DEPTH + 1
    requires AllShownAs(Children(v), values, depth, sensitive, stubs) && j < |values|
    ensures i < |v.members| && ShownUnder(v.members, i, Assemble(v, values).members[j].key)
    ensures ShownAs(v.members[i].value, values[j], depth, Some(v.members[i].key.name), sensitive, stubs)
  {
    var p := Chosen(v.members)[j];
    assert Children(v)[j] == Child(Some(p.key), p.value);
    i := ChosenIsShown(v.members, p);
  }

  lemma EntriesAreShown(v: Json, values: seq<Json>, depth: Depth, sensitive: Verdict, stubs: bool)
    requires v.Dict? && depth <= MAX_OPEN_DEPTH + 1
    requires AllShownAs(Children(v), values, depth, sensitive, stubs)
    ensures forall m <- Assemble(v, values).members :: EntryShown(v.members, m, depth, sensitive, stubs)
  {
    var out := Assemble(v, values);
    forall m <- out.members ensures EntryShown(v.members, m, depth, sensitive, stubs) {
      var j :| 0 <= j < |out.members| && out.members[j] == m;
      var i := EntryIsShown(v, values, depth, sensitive, stubs, j);
    }
  }

  lemma KeysAreShown(v: Json, values: seq<Json>)
    requires v.Dict? && |values| == |Children(v)|
    ensures forall i: nat :: Eligible(v.members, i) ==>
              HasKey(Assemble(v, values).members, Name(Short(v.members[i].key.name)))
  {
    var out := Assemble(v, values);
    forall i: nat | Eligible(v.members, i) ensures HasKey(out.members, Name(Short(v.members[i].key.name))) {
      var p := EligibleIsChosen(v.members, i);
      var j :| 0 <= j < |Chosen(v.members)| && Chosen(v.members)[j] == p;
      assert out.members[j].key == Name(ClipKey(p.key)) && out.members[j] in out.members;
    }
  }

  lemma DictIsShown(v: Json, values: seq<Json>, depth: Depth, key: Option<string>, sensitive: Verdict, stubs: bool)
    requires v.Dict? && depth <= MAX_OPEN_DEPTH && !Hides(key, sensitive)
    requires AllShownAs(Children(v), values, depth + 1, sensitive, stubs)
    ensures ShownAs(v, Assemble(v, values), depth, key, sensitive, stubs)
  {
    RebuiltKeysBounded(v.members, values);
    EntriesAreShown(v, values, depth + 1, sensitive, stubs);
    KeysAreShown(v, values);
  }

  lemma ClosedIsShown(v: Json, depth: Depth, key: Option<string>, nodes: nat, sensitive: Verdict, stubs: bool)
    requires !Opens(v, depth, key, nodes, sensitive) && (stubs || nodes + 1 <= MAX_OPEN_NODES)
    ensures ShownAs(v, Visit(v, depth, key, nodes, sensitive).0, depth, key, sensitive, stubs)
  {
  }

  lemma OpenIsShown(v: Json, depth: Depth, key: Option<string>, nodes: nat, sensitive: Verdict, stubs: bool)
    requires Opens(v, depth, key, nodes, sensitive)
    requires AllShownAs(Children(v), VisitAll(Children(v), depth + 1, nodes + 1, sensitive).0, depth + 1, sensitive,
                        stubs)
    ensures ShownAs(v, Visit(v, depth, key, nodes, sensitive).0, depth, key, sensitive, stubs)
  {
    VisitOpens(v, depth, key, nodes, sensitive);
    var values := VisitAll(Children(v), depth + 1, nodes + 1, sensitive).0;
    if v.List? {
      ListIsShown(v, values, depth, key, sensitive, stubs);
    } else {
      DictIsShown(v, values, depth, key, sensitive, stubs);
    }
  }

  lemma {:induction false} VisitIsShown(v: Json, depth: Depth, key: Option<string>, nodes: nat, sensitive: Verdict,
                                        stubs: bool)
    requires stubs || Visit(v, depth, key, nodes, sensitive).1 <= MAX_OPEN_NODES
    ensures ShownAs(v, Visit(v, depth, key, nodes, sensitive).0, depth, key, sensitive, stubs)
    decreases MAX_OPEN_DEPTH + 2 - depth, 0
  {
    if Opens(v, depth, key, nodes, sensitive) {
      VisitOpens(v, depth, key, nodes, sensitive);
      VisitAllIsShown(Children(v), depth + 1, nodes + 1, sensitive, stubs);
      OpenIsShown(v, depth, key, nodes, sensitive, stubs);
    } else {
      VisitCloses(v, depth, key, nodes, sensitive);
      ClosedIsShown(v, depth, key, nodes, sensitive, stubs);
    }
  }

  lemma {:induction false} VisitAllIsShown(children: seq<Child>, depth: Depth, nodes: nat, sensitive: Verdict,
                                           stubs: bool)
    requires stubs || VisitAll(children, depth, nodes, sensitive).1 <= MAX_OPEN_NODES
    ensures AllShownAs(children, VisitAll(children, depth, nodes, sensitive).0, depth, sensitive, stubs)
    decreases MAX_OPEN_DEPTH + 2 - depth, 1 + |children|
  {
    if children != [] {
      var mid := Visit(children[0].value, depth, children[0].key, nodes, sensitive).1;
      VisitAllCost(children[1..], depth, mid, sensitive);
      VisitIsShown(children[0].value, depth, children[0].key, nodes, sensitive, stubs);
      VisitAllIsShown(children[1..], depth, mid, sensitive, stubs);
    }
  }

  /**
   Every part of the output is what the corresponding part of the input is to be shown as: item i of a list
   for item i, the value under a key for the least of the first 64 entries whose keys clip to it.  Only a
   part beyond the budget may be a stub instead, and there is none unless the output exceeds 512 nodes.
   */
  lemma RedactedIsShown(v: Json, sensitive: Verdict)
    ensures ShownAs(v, Redact(v, sensitive), 0, None, sensitive, true)
    ensures Size(Redact(v, sensitive)) <= 512 ==> ShownAs(v, Redact(v, sensitive), 0, None, sensitive, false)
  {
    OutputSize(v, sensitive);
    VisitIsShown(v, 0, None, 0, sensitive, true);
    if Size(Redact(v, sensitive)) <= 512 {
      VisitIsShown(v, 0, None, 0, sensitive, false);
    }
  }

  // ---- what is left alone

  /**
   Nothing in v needs redacting: under a sensitive key and below level 6 it holds the markers themselves,
   containers have at most 64 entries, dictionaries have sorted distinct keys of at most 128 characters,
   texts have at most 2048 characters or are already cut, and everything is JSON.
   */
  ghost predicate Clean(v: Json, depth: Depth, key: Option<string>, sensitive: Verdict)
    decreases MAX_OPEN_DEPTH + 2 - depth
  {
    if key.Some? && sensitive(key.value) then v == Str("[REDACTED]")
    else if depth > 6 then v == Str("[TRUNCATED]")
    else
      match v
      case NonFinite => false
      case Other(_) => false
      case Str(text) => |text| > 2048 ==> text == text[..2048] + "[TRUNCATED]"
      case List(items) => |items| <= 64 && forall item <- items :: Clean(item, depth + 1, None, sensitive)
      case Dict(members) =>
        && |members| <= 64 && KeysBounded(members)
        && forall m <- members :: Clean(m.value, depth + 1, Some(m.key.name), sensitive)
      case _ => true
  }

  function Values(children: seq<Child>): (values: seq<Json>)
    ensures |values| == |children|
    ensures forall i :: 0 <= i < |children| ==> values[i] == children[i].value
  {
    seq(|children|, i requires 0 <= i < |children| => children[i].value)
  }

  ghost predicate AllClean(children: seq<Child>, depth: Depth, sensitive: Verdict) {
    forall child <- children :: Clean(child.value, depth, child.key, sensitive)
  }

  ghost predicate LegalShape(v: Json) {
    && (v.List? ==> |v.items| <= MAX_OPEN_ITEMS)
    && (v.Dict? ==> |v.members| <= MAX_OPEN_ITEMS && KeysBounded(v.members))
  }

  /** A container of legal shape is put together again from its own children. */
  lemma ReassemblesItself(v: Json)
    requires IsContainer(v) && LegalShape(v)
    ensures Assemble(v, Values(Children(v))) == v
  {
    if v.List? {
      assert Values(Children(v)) == v.items;
    } else {
      ChosenOfBounded(v.members);
      assert Rebuild(Chosen(v.members), Values(Children(v))) == v.members;
    }
  }

  /** Only a container of legal shape is left as it is, and only when its children are. */
  lemma OnlyLegalShapesStay(v: Json, values: seq<Json>)
    requires IsContainer(v) && |values| == |Children(v)| && Assemble(v, values) == v
    ensures LegalShape(v) && values == Values(Children(v))
  {
    if v.Dict? {
      RebuiltKeysBounded(v.members, values);
      ChosenOfBounded(v.members);
    }
  }

  lemma OpenFixed(v: Json, depth: Depth, key: Option<string>, nodes: nat, sensitive: Verdict)
    requires Opens(v, depth, key, nodes, sensitive)
    ensures Visit(v, depth, key, nodes, sensitive).0 == v <==>
              LegalShape(v) && VisitAll(Children(v), depth + 1, nodes + 1, sensitive).0 == Values(Children(v))
  {
    VisitOpens(v, depth, key, nodes, sensitive);
    var values := VisitAll(Children(v), depth + 1, nodes + 1, sensitive).0;
    if Assemble(v, values) == v {
      OnlyLegalShapesStay(v, values);
    }
    if LegalShape(v) {
      ReassemblesItself(v);
    }
  }

  lemma RoomForChildren(v: Json, nodes: nat)
    requires IsContainer(v) && LegalShape(v) && nodes + Nodes(v, true) <= MAX_OPEN_NODES
    ensures nodes + 1 + ItemNodes(Values(Children(v)), true) <= MAX_OPEN_NODES
  {
    ReassemblesItself(v);
    AssembledNodes(v, Values(Children(v)), true);
  }

  /** Cleanness of a container is that of its shape and its children. */
  lemma CleanByChildren(v: Json, depth: Depth, key: Option<string>, sensitive: Verdict)
    requires IsContainer(v) && depth <= MAX_OPEN_DEPTH && !Hides(key, sensitive) && LegalShape(v)
    ensures Clean(v, depth, key, sensitive) <==> AllClean(Children(v), depth + 1, sensitive)
  {
    var children := Children(v);
    if v.List? {
      SameItemCleanness(v.items, children, depth + 1, sensitive);
    } else {
      ChosenOfBounded(v.members);
      forall i | 0 <= i < |children| ensures children[i] == Child(Some(v.members[i].key.name), v.members[i].value) {
        assert v.members[i] in v.members;
      }
      SameCleanness(v.members, children, depth + 1, sensitive);
    }
  }

  lemma SameItemCleanness(items: seq<Json>, children: seq<Child>, depth: Depth, sensitive: Verdict)
    requires |items| == |children|
    requires forall i :: 0 <= i < |children| ==> children[i] == Child(None, items[i])
    ensures AllClean(children, depth, sensitive) <==> forall item <- items :: Clean(item, depth, None, sensitive)
  {
    if AllClean(children, depth, sensitive) {
      forall item <- items ensures Clean(item, depth, None, sensitive) {
        var i :| 0 <= i < |items| && items[i] == item;
        assert children[i] in children;
      }
    }
    if forall item <- items :: Clean(item, depth, None, sensitive) {
      forall child <- children ensures Clean(child.value, depth, child.key, sensitive) {
        var i :| 0 <= i < |children| && children[i] == child;
        assert items[i] in items;
      }
    }
  }

  lemma SameCleanness(members: seq<Member>, children: seq<Child>, depth: Depth, sensitive: Verdict)
    requires |members| == |children| && forall m <- members :: m.key.Name?
    requires forall i :: 0 <= i < |children| ==> children[i] == Child(Some(members[i].key.name), members[i].value)
    ensures AllClean(children, depth, sensitive) <==>
              forall m <- members :: Clean(m.value, depth, Some(m.key.name), sensitive)
  {
    if AllClean(children, depth, sensitive) {
      forall m <- members ensures Clean(m.value, depth, Some(m.key.name), sensitive) {
        var i :| 0 <= i < |members| && members[i] == m;
        assert children[i] in children;
      }
    }
    if forall m <- members :: Clean(m.value, depth, Some(m.key.name), sensitive) {
      forall child <- children ensures Clean(child.value, depth, child.key, sensitive) {
        var i :| 0 <= i < |children| && children[i] == child;
        assert members[i] in members;
      }
    }
  }

  /** A visit leaves v as it is exactly when v is clean. */
  ghost predicate Fixes(v: Json, depth: Depth, key: Option<string>, nodes: nat, sensitive: Verdict) {
    Visit(v, depth, key, nodes, sensitive).0 == v <==> Clean(v, depth, key, sensitive)
  }

  ghost predicate AllFix(children: seq<Child>, depth: Depth, nodes: nat, sensitive: Verdict) {
    VisitAll(children, depth, nodes, sensitive).0 == Values(children) <==> AllClean(children, depth, sensitive)
  }

  lemma ClosedFixes(v: Json, depth: Depth, key: Option<string>, nodes: nat, sensitive: Verdict)
    requires !Opens(v, depth, key, nodes, sensitive) && nodes + 1 <= MAX_OPEN_NODES
    ensures Fixes(v, depth, key, nodes, sensitive)
  {
    VisitCloses(v, depth, key, nodes, sensitive);
  }

  lemma OpenFixes(v: Json, depth: Depth, key: Option<string>, nodes: nat, sensitive: Verdict)
    requires Opens(v, depth, key, nodes, sensitive) && depth <= MAX_OPEN_DEPTH
    requires LegalShape(v) ==> AllFix(Children(v), depth + 1, nodes + 1, sensitive)
    ensures Fixes(v, depth, key, nodes, sensitive)
  {
    OpenFixed(v, depth, key, nodes, sensitive);
    if LegalShape(v) {
      CleanByChildren(v, depth, key, sensitive);
    } else {
      assert !Clean(v, depth, key, sensitive);
    }
  }

  lemma {:induction false} VisitFixes(v: Json, depth: Depth, key: Option<string>, nodes: nat, sensitive: Verdict)
    requires nodes + Nodes(v, true) <= MAX_OPEN_NODES
    ensures Fixes(v, depth, key, nodes, sensitive)
    decreases MAX_OPEN_DEPTH + 2 - depth, 0
  {
    if Opens(v, depth, key, nodes, sensitive) {
      if LegalShape(v) {
        RoomForChildren(v, nodes);
        VisitAllFixes(Children(v), depth + 1, nodes + 1, sensitive);
      }
      OpenFixes(v, depth, key, nodes, sensitive);
    } else {
      SomeNodes(v);
      ClosedFixes(v, depth, key, nodes, sensitive);
    }
  }

  lemma SomeNodes(v: Json)
    ensures Nodes(v, true) >= 1
  {
  }

  lemma {:induction false} VisitAllFixes(children: seq<Child>, depth: Depth, nodes: nat, sensitive: Verdict)
    requires nodes + ItemNodes(Values(children), true) <= MAX_OPEN_NODES
    ensures AllFix(children, depth, nodes, sensitive)
    decreases MAX_OPEN_DEPTH + 2 - depth, 1 + |children|
  {
    if children != [] {
      var (first, mid) := Visit(children[0].value, depth, children[0].key, nodes, sensitive);
      var rest := children[1..];
      assert Values(children)[1..] == Values(rest);
      VisitFixes(children[0].value, depth, children[0].key, nodes, sensitive);
      VisitSize(children[0].value, depth, children[0].key, nodes, sensitive);
      AllCleanCons(children, depth, sensitive);
      if first == children[0].value {
        VisitAllFixes(rest, depth, mid, sensitive);
        FixedCons(children, first, VisitAll(rest, depth, mid, sensitive).0);
      }
    }
  }

  lemma AllCleanCons(children: seq<Child>, depth: Depth, sensitive: Verdict)
    requires children != []
    ensures AllClean(children, depth, sensitive) <==>
              Clean(children[0].value, depth, children[0].key, sensitive) && AllClean(children[1..], depth, sensitive)
  {
    assert forall child :: child in children <==> child == children[0] || child in children[1..];
  }

  lemma FixedCons(children: seq<Child>, first: Json, rest: seq<Json>)
    requires children != [] && |rest| == |children| - 1
    ensures [first] + rest == Values(children) <==> first == children[0].value && rest == Values(children[1..])
  {
    var all := [first] + rest;
    assert all[0] == first && all[1..] == rest;
    assert Values(children)[1..] == Values(children[1..]);
    assert Values(children) == [children[0].value] + Values(children[1..]);
  }

  /** The redaction leaves alone exactly what needs no redacting, of all values of at most 512 nodes. */
  lemma LeavesAloneExactlyTheClean(v: Json, sensitive: Verdict)
    requires Size(v) <= 512
    ensures Redact(v, sensitive) == v <==> Clean(v, 0, None, sensitive)
  {
    VisitFixes(v, 0, None, 0, sensitive);
  }
}
