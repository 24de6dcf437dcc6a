/** Non-interference and idempotence of the redaction. */
module RedactionLaws {
  import opened Wrappers
  import opened Ordering
  import opened Redaction
  import opened RedactionBounds

  // ---- what lies under a sensitive key has no influence

  /** The same value, except for anything at all under keys judged sensitive, at any depth. */
  ghost predicate AgreeOutsideSecrets(a: Json, b: Json, sensitive: Verdict)
    decreases a
  {
    if a.List? && b.List? then
      |a.items| == |b.items|
      && forall i :: 0 <= i < |a.items| ==> AgreeOutsideSecrets(a.items[i], b.items[i], sensitive)
    else if a.Dict? && b.Dict? then
      |a.members| == |b.members|
      && forall i :: 0 <= i < |a.members| ==>
           && a.members[i].key == b.members[i].key
           && ((a.members[i].key.Name? && sensitive(a.members[i].key.name))
               || AgreeOutsideSecrets(a.members[i].value, b.members[i].value, sensitive))
    else a == b
  }

  ghost predicate PairsAgree(a: seq<Pair>, b: seq<Pair>, sensitive: Verdict) {
    && |a| == |b|
    && forall i :: 0 <= i < |a| ==>
         a[i].key == b[i].key
         && (sensitive(a[i].key) || AgreeOutsideSecrets(a[i].value, b[i].value, sensitive))
  }

  ghost predicate ChildrenAgree(a: seq<Child>, b: seq<Child>, sensitive: Verdict) {
    && |a| == |b|
    && forall i :: 0 <= i < |a| ==>
         a[i].key == b[i].key
         && (Hides(a[i].key, sensitive) || AgreeOutsideSecrets(a[i].value, b[i].value, sensitive))
  }

  lemma {:induction false} SelectAgrees(a: seq<Member>, b: seq<Member>, room: nat, sensitive: Verdict)
    requires |a| == |b|
    requires forall i :: 0 <= i < |a| ==>
               && a[i].key == b[i].key
               && ((a[i].key.Name? && sensitive(a[i].key.name))
                   || AgreeOutsideSecrets(a[i].value, b[i].value, sensitive))
    ensures PairsAgree(Select(a, room), Select(b, room), sensitive)
  {
    if room > 0 && a != [] {
      SelectAgrees(a[1..], b[1..], if a[0].key.Name? then room - 1 else room, sensitive);
    }
  }

  ghost predicate PairAgrees(p: Pair, q: Pair, sensitive: Verdict) {
    p.key == q.key && (sensitive(p.key) || AgreeOutsideSecrets(p.value, q.value, sensitive))
  }

  lemma ConsAgrees(p: Pair, q: Pair, a: seq<Pair>, b: seq<Pair>, sensitive: Verdict)
    ensures PairsAgree([p] + a, [q] + b, sensitive) <==> PairAgrees(p, q, sensitive) && PairsAgree(a, b, sensitive)
  {
    var c, d := [p] + a, [q] + b;
    if PairsAgree(c, d, sensitive) {
      assert c[0] == p && d[0] == q;
      forall i | 0 <= i < |a| ensures PairAgrees(a[i], b[i], sensitive) {
        assert c[i + 1] == a[i] && d[i + 1] == b[i];
      }
    }
  }

  lemma {:induction false} InsertAgrees(p: Pair, q: Pair, a: seq<Pair>, b: seq<Pair>, sensitive: Verdict)
    requires PairAgrees(p, q, sensitive) && PairsAgree(a, b, sensitive)
    ensures PairsAgree(Insert(p, a), Insert(q, b), sensitive)
  {
    if a == [] || LessEq(p.key, a[0].key) {
      ConsAgrees(p, q, a, b, sensitive);
    } else {
      assert a == [a[0]] + a[1..] && b == [b[0]] + b[1..];
      ConsAgrees(a[0], b[0], a[1..], b[1..], sensitive);
      InsertAgrees(p, q, a[1..], b[1..], sensitive);
      ConsAgrees(a[0], b[0], Insert(p, a[1..]), Insert(q, b[1..]), sensitive);
    }
  }

  lemma {:induction false} SortAgrees(a: seq<Pair>, b: seq<Pair>, sensitive: Verdict)
    requires PairsAgree(a, b, sensitive)
    ensures PairsAgree(Sort(a), Sort(b), sensitive)
  {
    if a != [] {
      SortAgrees(a[1..], b[1..], sensitive);
      InsertAgrees(a[0], b[0], Sort(a[1..]), Sort(b[1..]), sensitive);
    }
  }

  lemma {:induction false} FirstOfEachClipAgrees(a: seq<Pair>, b: seq<Pair>, taken: set<string>, sensitive: Verdict)
    requires PairsAgree(a, b, sensitive)
    ensures PairsAgree(FirstOfEachClip(a, taken), FirstOfEachClip(b, taken), sensitive)
  {
    if a != [] {
      var now := ClipKey(a[0].key);
      FirstOfEachClipAgrees(a[1..], b[1..], if now in taken then taken else taken + {now}, sensitive);
    }
  }

  lemma ChosenAgrees(a: seq<Member>, b: seq<Member>, sensitive: Verdict)
    requires AgreeOutsideSecrets(Dict(a), Dict(b), sensitive)
    ensures PairsAgree(Chosen(a), Chosen(b), sensitive)
  {
    SelectAgrees(a, b, MAX_OPEN_ITEMS, sensitive);
    SortAgrees(Select(a, MAX_OPEN_ITEMS), Select(b, MAX_OPEN_ITEMS), sensitive);
    FirstOfEachClipAgrees(Sort(Select(a, MAX_OPEN_ITEMS)), Sort(Select(b, MAX_OPEN_ITEMS)), {}, sensitive);
  }

  lemma ContainersAgree(a: Json, b: Json, sensitive: Verdict)
    requires AgreeOutsideSecrets(a, b, sensitive) && IsContainer(a)
    ensures IsContainer(b) && ChildrenAgree(Children(a), Children(b), sensitive)
  {
    if a.Dict? {
      ChosenAgrees(a.members, b.members, sensitive);
    }
  }

  lemma AssemblesAlike(a: Json, b: Json, values: seq<Json>, sensitive: Verdict)
    requires AgreeOutsideSecrets(a, b, sensitive) && IsContainer(a) && IsContainer(b)
    requires |Children(a)| == |Children(b)| == |values|
    ensures Assemble(a, values) == Assemble(b, values)
  {
    if a.Dict? {
      ChosenAgrees(a.members, b.members, sensitive);
      assert Rebuild(Chosen(a.members), values) == Rebuild(Chosen(b.members), values);
    }
  }

  /** A container that is neither hidden nor too deep nor over budget is rebuilt from its children. */
  predicate Opens(v: Json, depth: nat, key: Option<string>, nodes: nat, sensitive: Verdict) {
    nodes + 1 <= MAX_OPEN_NODES && !Hides(key, sensitive) && depth <= MAX_OPEN_DEPTH && IsContainer(v)
  }

  lemma VisitOpens(v: Json, depth: Depth, key: Option<string>, nodes: nat, sensitive: Verdict)
    requires Opens(v, depth, key, nodes, sensitive)
    ensures var (values, after) := VisitAll(Children(v), depth + 1, nodes + 1, sensitive);
            Visit(v, depth, key, nodes, sensitive) == (Assemble(v, values), after)
  {
  }

  lemma VisitCloses(v: Json, depth: Depth, key: Option<string>, nodes: nat, sensitive: Verdict)
    requires !Opens(v, depth, key, nodes, sensitive)
    ensures Visit(v, depth, key, nodes, sensitive) ==
              (if nodes + 1 > MAX_OPEN_NODES then Str(TRUNCATED)
               else if Hides(key, sensitive) then Str(REDACTED)
               else if depth > MAX_OPEN_DEPTH then Str(TRUNCATED)
               else Leaf(v), nodes + 1)
  {
  }

  lemma OpenedAgree(a: Json, b: Json, depth: nat, key: Option<string>, nodes: nat, sensitive: Verdict)
    requires depth <= MAX_OPEN_DEPTH
    requires Opens(a, depth, key, nodes, sensitive) && AgreeOutsideSecrets(a, b, sensitive) && IsContainer(b)
    requires VisitAll(Children(a), depth + 1, nodes + 1, sensitive)
          == VisitAll(Children(b), depth + 1, nodes + 1, sensitive)
    ensures Visit(a, depth, key, nodes, sensitive) == Visit(b, depth, key, nodes, sensitive)
  {
    AssemblesAlike(a, b, VisitAll(Children(a), depth + 1, nodes + 1, sensitive).0, sensitive);
    VisitOpens(a, depth, key, nodes, sensitive);
    VisitOpens(b, depth, key, nodes, sensitive);
  }

  lemma {:induction false} VisitAgrees(a: Json, b: Json, depth: Depth, key: Option<string>, nodes: nat,
                                       sensitive: Verdict)
    requires Hides(key, sensitive) || AgreeOutsideSecrets(a, b, sensitive)
    ensures Visit(a, depth, key, nodes, sensitive) == Visit(b, depth, key, nodes, sensitive)
    decreases MAX_OPEN_DEPTH + 2 - depth, 0
  {
    if Opens(a, depth, key, nodes, sensitive) {
      ContainersAgree(a, b, sensitive);
      VisitAllAgrees(Children(a), Children(b), depth + 1, nodes + 1, sensitive);
      OpenedAgree(a, b, depth, key, nodes, sensitive);
    } else {
      VisitCloses(a, depth, key, nodes, sensitive);
      VisitCloses(b, depth, key, nodes, sensitive);
    }
  }

  lemma {:induction false} VisitAllAgrees(a: seq<Child>, b: seq<Child>, depth: Depth, nodes: nat, sensitive: Verdict)
    requires ChildrenAgree(a, b, sensitive)
    ensures VisitAll(a, depth, nodes, sensitive) == VisitAll(b, depth, nodes, sensitive)
    decreases MAX_OPEN_DEPTH + 2 - depth, 1 + |a|
  {
    if a != [] {
      VisitAgrees(a[0].value, b[0].value, depth, a[0].key, nodes, sensitive);
      var mid := Visit(a[0].value, depth, a[0].key, nodes, sensitive).1;
      VisitAllAgrees(a[1..], b[1..], depth, mid, sensitive);
    }
  }

  /** Non-interference: nothing under a sensitive key can be learnt from the output, not even its size. */
  lemma SecretsDoNotInterfere(a: Json, b: Json, sensitive: Verdict)
    requires AgreeOutsideSecrets(a, b, sensitive)
    ensures Redact(a, sensitive) == Redact(b, sensitive)
  {
    VisitAgrees(a, b, 0, None, 0, sensitive);
  }

  // ---- a second pass

  /** The children of a container once visited: what they became, under their clipped keys. */
  function Revisited(children: seq<Child>, values: seq<Json>): (again: seq<Child>)
    requires |children| == |values|
    ensures |again| == |children|
    ensures forall i :: 0 <= i < |children| ==> again[i] == Child(ClipOption(children[i].key), values[i])
  {
    seq(|children|, i requires 0 <= i < |children| => Child(ClipOption(children[i].key), values[i]))
  }

  function ClipOption(key: Option<string>): Option<string> {
    match key
    case None => None
    case Some(text) => Some(ClipKey(text))
  }

  lemma {:induction false} SelectNamed(members: seq<Member>, room: nat)
    requires |members| <= room && forall m <- members :: m.key.Name?
    ensures var pairs := Select(members, room);
            |pairs| == |members|
            && forall i :: 0 <= i < |members| ==> pairs[i] == Pair(members[i].key.name, members[i].value)
  {
    if members != [] {
      SelectNamed(members[1..], room - 1);
    }
  }

  lemma {:induction false} SortSorted(pairs: seq<Pair>)
    requires Sorted(pairs)
    ensures Sort(pairs) == pairs
  {
    if pairs != [] {
      SortSorted(pairs[1..]);
      assert pairs == [pairs[0]] + pairs[1..];
    }
  }

  lemma {:induction false} FirstOfEachClipDistinct(pairs: seq<Pair>, taken: set<string>)
    requires forall p <- pairs :: ClipKey(p.key) !in taken
    requires forall i, j :: 0 <= i < j < |pairs| ==> ClipKey(pairs[i].key) != ClipKey(pairs[j].key)
    ensures FirstOfEachClip(pairs, taken) == pairs
  {
    if pairs != [] {
      FirstOfEachClipDistinct(pairs[1..], taken + {ClipKey(pairs[0].key)});
      assert pairs == [pairs[0]] + pairs[1..];
    }
  }

  /** A bounded dictionary is taken as it stands: nothing is dropped, reordered or clipped. */
  lemma ChosenOfBounded(members: seq<Member>)
    requires KeysBounded(members) && |members| <= MAX_OPEN_ITEMS
    ensures var pairs := Chosen(members);
            |pairs| == |members|
            && forall i :: 0 <= i < |members| ==>
                 pairs[i] == Pair(members[i].key.name, members[i].value) && ClipKey(pairs[i].key) == pairs[i].key
  {
    SelectNamed(members, MAX_OPEN_ITEMS);
    var pairs := Select(members, MAX_OPEN_ITEMS);
    SortSorted(pairs);
    FirstOfEachClipDistinct(pairs, {});
  }

  lemma AssembledChildren(v: Json, values: seq<Json>)
    requires IsContainer(v) && |values| == |Children(v)|
    ensures IsContainer(Assemble(v, values))
    ensures Children(Assemble(v, values)) == Revisited(Children(v), values)
    ensures forall others: seq<Json> :: |others| == |values| ==>
              Assemble(Assemble(v, values), others) == Assemble(v, others)
  {
    if v.Dict? {
      var out := Assemble(v, values);
      RebuiltKeysBounded(v.members, values);
      ChosenOfBounded(out.members);
      forall others: seq<Json> | |others| == |values| ensures Assemble(out, others) == Assemble(v, others) {
        assert Assemble(out, others).members == Assemble(v, others).members;
      }
    }
  }

  /**
   Where a second pass could judge a key differently from the first, because it sees the key clipped:
   going from sensitive to plain must happen above the last level, where the marker left behind is
   kept; going from plain to sensitive must leave a value that already is the marker.
   */
  predicate KeySettled(v: Json, depth: nat, key: Option<string>, sensitive: Verdict) {
    if Hides(key, sensitive) then Hides(ClipOption(key), sensitive) || depth <= MAX_OPEN_DEPTH
    else Hides(ClipOption(key), sensitive) ==> v == Str(REDACTED) && depth <= MAX_OPEN_DEPTH
  }

  /** Every key the first pass reaches within its budget is settled. */
  predicate Settled(v: Json, depth: Depth, key: Option<string>, nodes: nat, sensitive: Verdict)
    decreases MAX_OPEN_DEPTH + 2 - depth, 0
  {
    nodes + 1 > MAX_OPEN_NODES
    || (&& KeySettled(v, depth, key, sensitive)
        && (Hides(key, sensitive) || depth > MAX_OPEN_DEPTH || !IsContainer(v)
            || AllSettled(Children(v), depth + 1, nodes + 1, sensitive)))
  }

  predicate AllSettled(children: seq<Child>, depth: Depth, nodes: nat, sensitive: Verdict)
    decreases MAX_OPEN_DEPTH + 2 - depth, 1 + |children|
  {
    children == []
    || (&& Settled(children[0].value, depth, children[0].key, nodes, sensitive)
        && var mid := Visit(children[0].value, depth, children[0].key, nodes, sensitive).1;
           AllSettled(children[1..], depth, mid, sensitive))
  }

  /** Second pass over the output for v, which stands at depth, under key, after `nodes` nodes. */
  ghost predicate SameAgain(v: Json, depth: Depth, key: Option<string>, nodes: nat, sensitive: Verdict)
  {
    var (out, after) := Visit(v, depth, key, nodes, sensitive);
    var again := Visit(out, depth, ClipOption(key), nodes, sensitive);
    && (Settled(v, depth, key, nodes, sensitive) ==> again == (out, after))
    && (!Settled(v, depth, key, nodes, sensitive) ==> again.0 != out)
  }

  lemma ClosedAgain(v: Json, depth: Depth, key: Option<string>, nodes: nat, sensitive: Verdict)
    requires !Opens(v, depth, key, nodes, sensitive)
    ensures SameAgain(v, depth, key, nodes, sensitive)
  {
    VisitCloses(v, depth, key, nodes, sensitive);
    VisitCloses(Visit(v, depth, key, nodes, sensitive).0, depth, ClipOption(key), nodes, sensitive);
    MarkersDiffer();
  }

  lemma OpenedAgain(v: Json, depth: Depth, key: Option<string>, nodes: nat, sensitive: Verdict)
    requires Opens(v, depth, key, nodes, sensitive)
    requires var children := Children(v);
             var (values, after) := VisitAll(children, depth + 1, nodes + 1, sensitive);
             var again := VisitAll(Revisited(children, values), depth + 1, nodes + 1, sensitive);
             && (AllSettled(children, depth + 1, nodes + 1, sensitive) ==> again == (values, after))
             && (!AllSettled(children, depth + 1, nodes + 1, sensitive) ==> again.0 != values)
    ensures SameAgain(v, depth, key, nodes, sensitive)
  {
    var children := Children(v);
    var values := VisitAll(children, depth + 1, nodes + 1, sensitive).0;
    var out := Visit(v, depth, key, nodes, sensitive).0;
    VisitOpens(v, depth, key, nodes, sensitive);
    AssembledChildren(v, values);
    if Hides(ClipOption(key), sensitive) {
      VisitCloses(out, depth, ClipOption(key), nodes, sensitive);
    } else {
      VisitOpens(out, depth, ClipOption(key), nodes, sensitive);
      AssembleInjective(v, values, VisitAll(Revisited(children, values), depth + 1, nodes + 1, sensitive).0);
    }
  }

  lemma {:induction false} VisitAgain(v: Json, depth: Depth, key: Option<string>, nodes: nat, sensitive: Verdict)
    ensures SameAgain(v, depth, key, nodes, sensitive)
    decreases MAX_OPEN_DEPTH + 2 - depth, 0
  {
    if Opens(v, depth, key, nodes, sensitive) {
      VisitAllAgain(Children(v), depth + 1, nodes + 1, sensitive);
      OpenedAgain(v, depth, key, nodes, sensitive);
    } else {
      ClosedAgain(v, depth, key, nodes, sensitive);
    }
  }

  lemma MarkersDiffer()
    ensures REDACTED != TRUNCATED && REDACTED != UNSUPPORTED
    ensures ClipText(REDACTED) == REDACTED && ClipText(TRUNCATED) == TRUNCATED && ClipText(UNSUPPORTED) == UNSUPPORTED
    ensures forall text: string :: ClipText(ClipText(text)) == ClipText(text)
    ensures forall text: string :: ClipText(text) == REDACTED ==> text == REDACTED
  {
    assert REDACTED[1] != TRUNCATED[1] && REDACTED[1] != UNSUPPORTED[1];
  }

  lemma AssembleInjective(v: Json, a: seq<Json>, b: seq<Json>)
    requires IsContainer(v) && |a| == |b| == |Children(v)|
    ensures a != b ==> Assemble(v, a) != Assemble(v, b)
  {
    if v.Dict? && a != b {
      var i :| 0 <= i < |a| && a[i] != b[i];
      assert Rebuild(Chosen(v.members), a)[i] != Rebuild(Chosen(v.members), b)[i];
    }
  }

  lemma {:induction false} VisitAllAgain(children: seq<Child>, depth: Depth, nodes: nat, sensitive: Verdict)
    ensures var (values, after) := VisitAll(children, depth, nodes, sensitive);
            var again := VisitAll(Revisited(children, values), depth, nodes, sensitive);
            && (AllSettled(children, depth, nodes, sensitive) ==> again == (values, after))
            && (!AllSettled(children, depth, nodes, sensitive) ==> again.0 != values)
    decreases MAX_OPEN_DEPTH + 2 - depth, 1 + |children|
  {
    if children != [] {
      var (first, mid) := Visit(children[0].value, depth, children[0].key, nodes, sensitive);
      VisitAgain(children[0].value, depth, children[0].key, nodes, sensitive);
      VisitAllAgain(children[1..], depth, mid, sensitive);
      var values := VisitAll(children, depth, nodes, sensitive).0;
      assert values[1..] == VisitAll(children[1..], depth, mid, sensitive).0;
      assert Revisited(children, values)[1..] == Revisited(children[1..], values[1..]);
    }
  }

  /**
   Exactly when redacting again changes nothing: when every key reached within the budget is settled.
   Then the second pass also spends the same budget.
   */
  lemma IdempotentExactlyWhenSettled(v: Json, sensitive: Verdict)
    ensures Redact(Redact(v, sensitive), sensitive) == Redact(v, sensitive) <==> Settled(v, 0, None, 0, sensitive)
    ensures Settled(v, 0, None, 0, sensitive) ==>
              Visit(Redact(v, sensitive), 0, None, 0, sensitive) == Visit(v, 0, None, 0, sensitive)
  {
    VisitAgain(v, 0, None, 0, sensitive);
  }

  /** Clipping changes the verdict on no string key of v, at any depth. */
  ghost predicate ClippingKeepsVerdicts(v: Json, sensitive: Verdict)
    decreases v
  {
    match v
    case List(items) => forall item <- items :: ClippingKeepsVerdicts(item, sensitive)
    case Dict(members) =>
      forall m <- members ::
        && (m.key.Name? ==> sensitive(m.key.name) == sensitive(ClipKey(m.key.name)))
        && ClippingKeepsVerdicts(m.value, sensitive)
    case _ => true
  }

  lemma {:induction false} SelectPicks(members: seq<Member>, room: nat)
    ensures forall p <- Select(members, room) :: Member(Name(p.key), p.value) in members
  {
    if room > 0 && members != [] {
      SelectPicks(members[1..], if members[0].key.Name? then room - 1 else room);
    }
  }

  lemma ChosenPicks(members: seq<Member>)
    ensures forall p <- Chosen(members) :: Member(Name(p.key), p.value) in members
  {
    var selected := Select(members, MAX_OPEN_ITEMS);
    SelectPicks(members, MAX_OPEN_ITEMS);
    SortSorts(selected);
    FirstOfEachClipPicks(Sort(selected), {});
    forall p <- Chosen(members) ensures p in selected {
      assert p in multiset(Sort(selected));
    }
  }

  ghost predicate AllVerdictsKept(children: seq<Child>, sensitive: Verdict) {
    forall c <- children ::
      && ClippingKeepsVerdicts(c.value, sensitive)
      && Hides(c.key, sensitive) == Hides(ClipOption(c.key), sensitive)
  }

  lemma ChildrenKeepVerdicts(v: Json, sensitive: Verdict)
    requires IsContainer(v) && ClippingKeepsVerdicts(v, sensitive)
    ensures AllVerdictsKept(Children(v), sensitive)
  {
    if v.Dict? {
      ChosenPicks(v.members);
    }
  }

  lemma {:induction false} VerdictsKeptSettle(v: Json, depth: Depth, key: Option<string>, nodes: nat,
                                              sensitive: Verdict)
    requires ClippingKeepsVerdicts(v, sensitive) && Hides(key, sensitive) == Hides(ClipOption(key), sensitive)
    ensures Settled(v, depth, key, nodes, sensitive)
    decreases MAX_OPEN_DEPTH + 2 - depth, 0
  {
    if Opens(v, depth, key, nodes, sensitive) {
      ChildrenKeepVerdicts(v, sensitive);
      AllVerdictsKeptSettle(Children(v), depth + 1, nodes + 1, sensitive);
    }
  }

  lemma {:induction false} AllVerdictsKeptSettle(children: seq<Child>, depth: Depth, nodes: nat, sensitive: Verdict)
    requires AllVerdictsKept(children, sensitive)
    ensures AllSettled(children, depth, nodes, sensitive)
    decreases MAX_OPEN_DEPTH + 2 - depth, 1 + |children|
  {
    if children != [] {
      assert children[0] in children;
      VerdictsKeptSettle(children[0].value, depth, children[0].key, nodes, sensitive);
      var mid := Visit(children[0].value, depth, children[0].key, nodes, sensitive).1;
      AllVerdictsKeptSettle(children[1..], depth, mid, sensitive);
    }
  }

  /** The check made at the boundary: nothing becomes an empty object, anything but an object is refused. */
  function SafeObject(v: Json, sensitive: Verdict): Option<Json> {
    match v
    case Null => Some(Dict([]))
    case Dict(_) => Some(Redact(v, sensitive))
    case _ => None
  }

  /**
   The forced revalidation: validating an open field again, on what validation left of it, changes
   nothing when clipping keeps the verdict on every key, as it does whenever no key exceeds 128 characters.
   */
  lemma RevalidationChangesNothing(v: Json, sensitive: Verdict)
    requires ClippingKeepsVerdicts(v, sensitive)
    ensures match SafeObject(v, sensitive)
            case Some(safe) => safe.Dict? && SafeObject(safe, sensitive) == Some(safe)
            case None => !v.Dict? && !v.Null?
  {
    if v.Null? {
      assert Redact(Dict([]), sensitive) == Dict([]) by {
        assert Children(Dict([])) == [];
      }
    } else {
      RedactedIsBounded(v, sensitive);
      VerdictsKeptSettle(v, 0, None, 0, sensitive);
      IdempotentExactlyWhenSettled(v, sensitive);
    }
  }
}
