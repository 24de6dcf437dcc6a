/** The bounded set of keys the hub has sent, least recently added first. */
module SentIds {
  datatype Op = Add(id: string) | Discard(id: string)

  function Without(ids: seq<string>, id: string): seq<string> {
    if ids == [] then []
    else if ids[0] == id then Without(ids[1..], id)
    else [ids[0]] + Without(ids[1..], id)
  }

  /** The last `cap` of them. */
  function Newest(ids: seq<string>, cap: nat): seq<string> {
    if |ids| <= cap then ids else ids[|ids| - cap..]
  }

  function Apply(ids: seq<string>, op: Op, cap: nat): seq<string> {
    match op
    case Add(id) => Newest(Without(ids, id) + [id], cap)
    case Discard(id) => Without(ids, id)
  }

  function Replay(ids: seq<string>, ops: seq<Op>, cap: nat): seq<string> {
    if ops == [] then ids else Apply(Replay(ids, ops[..|ops| - 1], cap), ops[|ops| - 1], cap)
  }

  class SentIds {
    const cap: nat
    var ids: seq<string>

    constructor (cap: nat)
      ensures this.cap == cap && ids == []
    {
      this.cap, ids := cap, [];
    }

    method Add(id: string)
      modifies this
      ensures ids == Apply(old(ids), Op.Add(id), cap)
    {
      ids := Without(ids, id) + [id];
      while |ids| > cap
        invariant Newest(ids, cap) == Apply(old(ids), Op.Add(id), cap)
        decreases |ids|
      {
        ids := ids[1..];
      }
    }

    method Contains(id: string) returns (found: bool)
      ensures found <==> id in ids
    {
      found := id in ids;
    }

    method Discard(id: string)
      modifies this
      ensures ids == Apply(old(ids), Op.Discard(id), cap)
    {
      ids := Without(ids, id);
    }
  }

  ghost predicate Unique(ids: seq<string>) {
    forall i, j :: 0 <= i < j < |ids| ==> ids[i] != ids[j]
  }

  function Elements(ids: seq<string>): set<string> {
    set x <- ids
  }

  /** The keys other than `id` that `ops` add. */
  function Others(ops: seq<Op>, id: string): set<string> {
    set op <- ops | op.Add? && op.id != id :: op.id
  }

  /** What stands after the first occurrence of `id`. */
  function After(ids: seq<string>, id: string): seq<string> {
    if ids == [] then [] else if ids[0] == id then ids[1..] else After(ids[1..], id)
  }

  lemma {:induction false} WithoutMembers(ids: seq<string>, id: string)
    ensures |Without(ids, id)| <= |ids|
    ensures forall x :: x in Without(ids, id) <==> x in ids && x != id
  {
    if ids != [] {
      WithoutMembers(ids[1..], id);
      assert forall x :: x in ids <==> x == ids[0] || x in ids[1..];
    }
  }

  lemma {:induction false} WithoutUnique(ids: seq<string>, id: string)
    requires Unique(ids)
    ensures Unique(Without(ids, id)) && Unique(Without(ids, id) + [id])
  {
    WithoutMembers(ids, id);
    var rest := Without(ids, id);
    if ids != [] {
      WithoutUnique(ids[1..], id);
      WithoutMembers(ids[1..], id);
      var later := Without(ids[1..], id);
      forall i | 0 <= i < |later| ensures later[i] != ids[0] {
        assert later[i] in ids[1..];
      }
    }
    forall i | 0 <= i < |rest| ensures rest[i] != id {
      assert rest[i] in rest;
    }
  }

  lemma {:induction false} UniqueSize(ids: seq<string>)
    requires Unique(ids)
    ensures |Elements(ids)| == |ids|
  {
    if ids != [] {
      var last := |ids| - 1;
      UniqueSize(ids[..last]);
      assert Elements(ids) == Elements(ids[..last]) + {ids[last]};
    }
  }

  lemma {:induction false} ElementsNoMore(ids: seq<string>)
    ensures |Elements(ids)| <= |ids|
  {
    if ids != [] {
      var last := |ids| - 1;
      ElementsNoMore(ids[..last]);
      assert Elements(ids) == Elements(ids[..last]) + {ids[last]};
    }
  }

  lemma SubsetNoLarger<T>(a: set<T>, b: set<T>)
    requires a <= b
    ensures |a| <= |b|
  {
    assert b == a + (b - a);
  }

  lemma ApplyUnique(ids: seq<string>, op: Op, cap: nat)
    requires Unique(ids) && |ids| <= cap
    ensures Unique(Apply(ids, op, cap)) && |Apply(ids, op, cap)| <= cap
  {
    WithoutMembers(ids, op.id);
    WithoutUnique(ids, op.id);
  }

  lemma {:induction false} AfterWithout(ids: seq<string>, id: string, x: string)
    requires id in ids && x != id
    ensures After(Without(ids, x), id) == Without(After(ids, id), x)
  {
    if ids[0] != id {
      AfterWithout(ids[1..], id, x);
    }
  }

  lemma {:induction false} AfterAppend(ids: seq<string>, id: string, x: string)
    requires id in ids
    ensures After(ids + [x], id) == After(ids, id) + [x]
  {
    assert (ids + [x])[1..] == ids[1..] + [x];
    if ids[0] != id {
      AfterAppend(ids[1..], id, x);
    }
  }

  lemma {:induction false} AfterUnique(ids: seq<string>, id: string)
    requires Unique(ids)
    ensures Unique(After(ids, id)) && |After(ids, id)| <= |ids|
    ensures id in ids ==> |After(ids, id)| < |ids|
  {
    if ids != [] && ids[0] != id {
      AfterUnique(ids[1..], id);
    }
  }

  lemma {:induction false} AfterLast(ids: seq<string>, id: string)
    requires Unique(ids + [id])
    ensures After(ids + [id], id) == []
  {
    assert (ids + [id])[|ids|] == id;
    if ids == [] {
      assert ids + [id] == [id];
    } else {
      assert (ids + [id])[1..] == ids[1..] + [id];
      AfterLast(ids[1..], id);
    }
  }

  /** One pop from the front: `id` goes exactly when it stands first. */
  lemma PopFront(ids: seq<string>, id: string, cap: nat)
    requires Unique(ids) && id in ids && |ids| <= cap + 1
    ensures |After(ids, id)| >= cap ==> id !in Newest(ids, cap)
    ensures |After(ids, id)| < cap ==> id in Newest(ids, cap) && After(Newest(ids, cap), id) == After(ids, id)
  {
    AfterUnique(ids[1..], id);
    AfterUnique(ids, id);
    if |ids| == cap + 1 && ids[0] != id {
      assert Newest(ids, cap) == ids[1..];
    }
  }

  /** Another key is added: what stands after `id` gains it, and `id` goes exactly when that makes `cap`. */
  lemma AddStep(ids: seq<string>, id: string, x: string, cap: nat)
    requires Unique(ids) && |ids| <= cap && id in ids && x != id
    ensures var later := Elements(After(ids, id)) + {x};
            var now := Apply(ids, Add(x), cap);
            if |later| < cap then id in now && Elements(After(now, id)) == later else id !in now
  {
    var kept := Without(ids, x);
    WithoutMembers(ids, x);
    WithoutUnique(ids, x);
    AfterWithout(ids, id, x);
    AfterAppend(kept, id, x);
    WithoutMembers(After(ids, id), x);
    var tail := After(kept + [x], id);
    AfterUnique(kept + [x], id);
    UniqueSize(tail);
    assert Elements(tail) == Elements(After(ids, id)) + {x};
    PopFront(kept + [x], id, cap);
  }

  lemma AddItself(ids: seq<string>, id: string, cap: nat)
    requires Unique(ids) && |ids| <= cap && cap > 0
    ensures var now := Apply(ids, Add(id), cap);
            id in now && After(now, id) == []
  {
    var now := Apply(ids, Add(id), cap);
    ApplyUnique(ids, Add(id), cap);
    assert now == now[..|now| - 1] + [id];
    AfterLast(now[..|now| - 1], id);
  }

  /**
   An added key stays through any later additions and removals that do not discard it and that add
   fewer than `cap` other keys.
   */
  lemma {:induction false} Survives(ids: seq<string>, id: string, ops: seq<Op>, cap: nat)
    requires Unique(ids) && |ids| <= cap
    requires Discard(id) !in ops && |Others(ops, id)| < cap
    ensures var now := Replay(Apply(ids, Add(id), cap), ops, cap);
            Unique(now) && |now| <= cap && id in now && Elements(After(now, id)) <= Others(ops, id)
  {
    ApplyUnique(ids, Add(id), cap);
    if ops == [] {
      AddItself(ids, id, cap);
    } else {
      var front, op := ops[..|ops| - 1], ops[|ops| - 1];
      assert ops == front + [op];
      assert Others(ops, id) == Others(front, id) + if op.Add? && op.id != id then {op.id} else {};
      SubsetNoLarger(Others(front, id), Others(ops, id));
      Survives(ids, id, front, cap);
      var before := Replay(Apply(ids, Add(id), cap), front, cap);
      ApplyUnique(before, op, cap);
      if op == Add(id) {
        AddItself(before, id, cap);
      } else if op.Add? {
        AddStep(before, id, op.id, cap);
        SubsetNoLarger(Elements(After(before, id)) + {op.id}, Others(ops, id));
      } else {
        WithoutMembers(before, op.id);
        AfterWithout(before, id, op.id);
        WithoutMembers(After(before, id), op.id);
      }
    }
  }

  /** The keys that `ops` add and do not discard afterwards. */
  function Outstanding(ops: seq<Op>): set<string> {
    if ops == [] then {}
    else
      match ops[|ops| - 1]
      case Add(x) => Outstanding(ops[..|ops| - 1]) + {x}
      case Discard(x) => Outstanding(ops[..|ops| - 1]) - {x}
  }

  /** Neither now nor at any time before, while `ops` were done, were `cap` of their keys outstanding. */
  ghost predicate RoomThroughout(ops: seq<Op>, cap: nat) {
    |Outstanding(ops)| < cap && (ops == [] || RoomThroughout(ops[..|ops| - 1], cap))
  }

  /** One more operation on another key, while `id` is held. */
  lemma HeldStep(ids: seq<string>, id: string, op: Op, cap: nat, later: set<string>)
    requires Unique(ids) && |ids| <= cap && id in ids && op.id != id
    requires Elements(After(ids, id)) == later
    ensures var after := if op.Add? then later + {op.id} else later - {op.id};
            var now := Apply(ids, op, cap);
            if |after| < cap then id in now && Elements(After(now, id)) == after else id !in now
  {
    if op.Add? {
      AddStep(ids, id, op.id, cap);
    } else {
      WithoutMembers(ids, op.id);
      AfterWithout(ids, id, op.id);
      WithoutMembers(After(ids, id), op.id);
      AfterUnique(ids, id);
      ElementsNoMore(After(ids, id));
      SubsetNoLarger(later - {op.id}, later);
    }
  }

  /**
   The bound is exact: an added key, not added again, is held exactly when it was not discarded and at no
   time since were `cap` other keys added and not discarded.
   */
  lemma {:induction false} HeldExactlyWhileRoom(ids: seq<string>, id: string, ops: seq<Op>, cap: nat)
    requires Unique(ids) && |ids| <= cap && cap > 0 && Add(id) !in ops
    ensures var now := Replay(Apply(ids, Add(id), cap), ops, cap);
            && Unique(now) && |now| <= cap
            && (id in now <==> Discard(id) !in ops && RoomThroughout(ops, cap))
            && (id in now ==> Elements(After(now, id)) == Outstanding(ops))
  {
    ApplyUnique(ids, Add(id), cap);
    if ops == [] {
      AddItself(ids, id, cap);
    } else {
      var front, op := ops[..|ops| - 1], ops[|ops| - 1];
      assert ops == front + [op];
      HeldExactlyWhileRoom(ids, id, front, cap);
      var before := Replay(Apply(ids, Add(id), cap), front, cap);
      ApplyUnique(before, op, cap);
      if id in before && op.id != id {
        HeldStep(before, id, op, cap, Outstanding(front));
      } else {
        WithoutMembers(before, op.id);
      }
    }
  }

  lemma {:induction false} OutstandingAdds(ops: seq<Op>, id: string, cap: nat)
    requires forall op <- ops :: op.Add? && op.id != id
    ensures Outstanding(ops) == Others(ops, id)
    ensures RoomThroughout(ops, cap) <==> |Others(ops, id)| < cap
  {
    if ops != [] {
      var front, op := ops[..|ops| - 1], ops[|ops| - 1];
      assert ops == front + [op];
      OutstandingAdds(front, id, cap);
      SubsetNoLarger(Others(front, id), Others(ops, id));
    }
  }

  /** With nothing discarded, it is gone exactly when `cap` others were added after it. */
  lemma GoneExactlyAtCap(ids: seq<string>, id: string, ops: seq<Op>, cap: nat)
    requires Unique(ids) && |ids| <= cap && cap > 0
    requires forall op <- ops :: op.Add? && op.id != id
    ensures id in Replay(Apply(ids, Add(id), cap), ops, cap) <==> |Others(ops, id)| < cap
  {
    HeldExactlyWhileRoom(ids, id, ops, cap);
    OutstandingAdds(ops, id, cap);
  }
}
