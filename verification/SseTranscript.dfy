/** What a client of the event stream is told: the greeting, the resets, and every frame, in order. */
module SseTranscript {
  import opened R = Ring
  import opened SseResume

  /** The header cannot be answered from the ring as it now is. */
  predicate Unanswerable(r: Ring, resume: Resume) {
    || resume.Malformed?
    || (resume.At? && (resume.epoch != r.epoch || resume.n > r.n || r.n - resume.n > r.capacity))
  }

  function Sends(frames: seq<Frame>): (sends: seq<Out>)
    ensures |sends| == |frames|
    ensures forall i :: 0 <= i < |frames| ==> sends[i] == Sent(frames[i])
  {
    seq(|frames|, i requires 0 <= i < |frames| => Sent(frames[i]))
  }

  // ---- in every reachable state

  /** What has been said after the greeting and before any frame. */
  function Resets(c: Connection): seq<Out> {
    if c.phase.ResettingCompat? then [ResumeReset]
    else if c.phase.Live? && c.wasReset then [ResumeReset, CompatReset]
    else []
  }

  /** All that a stream has said: nothing, or a greeting, the resets that are due, and the frames delivered. */
  ghost predicate Spoken(r: Ring, c: Connection) {
    if c.phase.Attached? then c.out == [] && !c.wasReset
    else
      && c.out != [] && c.out[0].Hello? && c.out[0].epoch == r.epoch && c.cutoff <= c.out[0].resume <= r.n
      && c.out[1..] == Resets(c) + Sends(Delivered(c.out))
      && (c.phase.Resetting? || c.phase.ResettingCompat? ==> c.wasReset)
      && (c.phase.Greeted? || c.phase.Replaying? ==> !c.wasReset)
      && (c.phase.Greeted? || c.phase.Resetting? || c.phase.ResettingCompat? ==> Delivered(c.out) == [])
  }

  ghost predicate AllSpoken(s: System) {
    forall id <- s.connections :: Spoken(s.ring, s.connections[id])
  }

  lemma SaidOneMore(c: Connection, o: Out, after: Connection)
    requires c.out != [] && after.out == c.out + [o]
    ensures after.out[0] == c.out[0] && after.out[1..] == c.out[1..] + [o]
    ensures Delivered(after.out) == Delivered(c.out) + if o.Sent? then [o.frame] else []
  {
    DeliveredSent(c.out, o);
  }

  lemma SendsSnoc(frames: seq<Frame>, frame: Frame)
    ensures Sends(frames + [frame]) == Sends(frames) + [Sent(frame)]
  {
  }

  lemma GreetingIsSpoken(r: Ring, c: Connection)
    requires Spoken(r, c) && c.phase.Attached? && c.cutoff <= r.n
    ensures Spoken(r, AdvanceStream(r, c))
  {
    DeliveredSent([], Hello(r.epoch, r.n));
    assert [] + [Hello(r.epoch, r.n)] == [Hello(r.epoch, r.n)];
    assert Sends([]) == [];
  }

  lemma SendingIsSpoken(r: Ring, c: Connection, frame: Frame, after: Connection)
    requires Spoken(r, c) && (c.phase.Replaying? || c.phase.Live?) && after.phase.Live? == c.phase.Live?
    requires after.phase.Replaying? == c.phase.Replaying?
    requires after.out == c.out + [Sent(frame)] && after.wasReset == c.wasReset && after.cutoff == c.cutoff
    ensures Spoken(r, after)
  {
    SaidOneMore(c, Sent(frame), after);
    SendsSnoc(Delivered(c.out), frame);
    assert Resets(c) + Sends(Delivered(c.out)) + [Sent(frame)] == Resets(c) + (Sends(Delivered(c.out)) + [Sent(frame)]);
  }

  lemma ResettingIsSpoken(r: Ring, c: Connection)
    requires Spoken(r, c) && (c.phase.Resetting? || c.phase.ResettingCompat?)
    ensures Spoken(r, AdvanceStream(r, c))
  {
    SaidOneMore(c, if c.phase.Resetting? then ResumeReset else CompatReset, AdvanceStream(r, c));
    assert Sends([]) == [];
  }

  /** The steps that say nothing. */
  lemma SilenceIsSpoken(r: Ring, c: Connection, after: Connection)
    requires Spoken(r, c) && !c.phase.Attached? && !c.phase.Resetting? && !c.phase.ResettingCompat?
    requires after.out == c.out && after.cutoff == c.cutoff
    requires c.phase.Live? ==> after.phase.Live? && after.wasReset == c.wasReset
    requires c.phase.Replaying? ==> after.phase.Live? && !after.wasReset
    requires c.phase.Greeted? ==> if after.wasReset then after.phase.Resetting? else after.phase.Replaying?
    ensures Spoken(r, after)
  {
  }

  lemma AdvanceIsSpoken(r: Ring, c: Connection)
    requires Spoken(r, c) && c.cutoff <= r.n
    ensures Spoken(r, AdvanceStream(r, c))
  {
    var after := AdvanceStream(r, c);
    if c.phase.Attached? {
      GreetingIsSpoken(r, c);
    } else if c.phase.Resetting? || c.phase.ResettingCompat? {
      ResettingIsSpoken(r, c);
    } else if c.phase.Replaying? && c.phase.pending != [] {
      SendingIsSpoken(r, c, c.phase.pending[0], after);
    } else if c.phase.Live? && c.queue != [] && AfterCutoff(c.queue[0], c.cutoffEpoch, c.cutoff) {
      SendingIsSpoken(r, c, c.queue[0], after);
    } else {
      SilenceIsSpoken(r, c, after);
    }
  }

  /** What has been said depends on neither the queue nor what is published later. */
  lemma QueueIsNotSpoken(r: Ring, c: Connection, later: Ring, after: Connection)
    requires Spoken(r, c) && later.epoch == r.epoch && later.n >= r.n && after == c.(queue := after.queue)
    ensures Spoken(later, after)
  {
  }

  lemma PublishIsSpoken(s: System, event: string, data: string)
    requires Invariant(s) && AllSpoken(s)
    ensures AllSpoken(Step(s, Publish(event, data)))
  {
    var after := Step(s, Publish(event, data));
    forall id <- after.connections ensures Spoken(after.ring, after.connections[id]) {
      QueueIsNotSpoken(s.ring, s.connections[id], after.ring, after.connections[id]);
    }
  }

  lemma AttachIsSpoken(s: System, id: nat, resume: Resume)
    requires AllSpoken(s) && s.ring.capacity > 0
    ensures AllSpoken(Step(s, Attach(id, resume))) && AllSpoken(Step(s, Detach(id)))
  {
    var after := Step(s, Attach(id, resume));
    forall other <- after.connections ensures Spoken(after.ring, after.connections[other]) {
      if other in s.connections {
        assert Spoken(s.ring, s.connections[other]);
      }
    }
  }

  lemma OneAdvanceIsSpoken(s: System, id: nat)
    requires Invariant(s) && AllSpoken(s)
    ensures AllSpoken(Step(s, Advance(id)))
  {
    var after := Step(s, Advance(id));
    forall other <- after.connections ensures Spoken(after.ring, after.connections[other]) {
      assert Spoken(s.ring, s.connections[other]);
      if other == id {
        AdvanceIsSpoken(s.ring, s.connections[id]);
      }
    }
  }

  lemma StepIsSpoken(s: System, a: Action)
    requires Invariant(s) && AllSpoken(s)
    ensures AllSpoken(Step(s, a))
  {
    match a
    case Publish(event, data) => PublishIsSpoken(s, event, data);
    case Attach(id, resume) => AttachIsSpoken(s, id, resume);
    case Advance(id) => OneAdvanceIsSpoken(s, id);
    case Detach(id) => AttachIsSpoken(s, id, Absent);
  }

  lemma {:induction false} RunIsSpoken(s: System, actions: seq<Action>)
    requires Invariant(s) && AllSpoken(s)
    ensures AllSpoken(Run(s, actions))
  {
    if actions != [] {
      RunKeepsInvariant(s, actions[..|actions| - 1]);
      RunIsSpoken(s, actions[..|actions| - 1]);
      StepIsSpoken(Run(s, actions[..|actions| - 1]), actions[|actions| - 1]);
    }
  }

  /**
   What every stream of every reachable system has said: nothing before the greeting; then a greeting that
   carries the process epoch and a number between the cutoff and the newest; then, for a stream that was
   reset, the reset and its older form before it goes live; and then exactly the frames delivered.
   */
  lemma TranscriptOfEveryStream(s: System, id: nat)
    requires Reachable(s) && id in s.connections
    ensures Spoken(s.ring, s.connections[id])
  {
    var epoch, capacity: nat, maxClients, actions :|
      capacity > 0 && s == Run(Start(epoch, capacity, maxClients), actions);
    RunIsSpoken(Start(epoch, capacity, maxClients), actions);
  }

  // ---- the resets are said exactly when due

  predicate Stays(actions: seq<Action>, id: nat) {
    Detach(id) !in actions
  }

  lemma StepKeepsVerdict(s: System, a: Action, id: nat)
    requires s.ring.capacity > 0 && id in s.connections && BacklogRead(s.connections[id]) && a != Detach(id)
    ensures var t := Step(s, a);
            id in t.connections && BacklogRead(t.connections[id])
            && t.connections[id].wasReset == s.connections[id].wasReset
  {
  }

  /** Once the backlog is read, what became of it never changes while the stream stays. */
  lemma {:induction false} VerdictStays(s: System, actions: seq<Action>, id: nat)
    requires s.ring.capacity > 0 && id in s.connections && BacklogRead(s.connections[id]) && Stays(actions, id)
    ensures var t := Run(s, actions);
            id in t.connections && BacklogRead(t.connections[id])
            && t.connections[id].wasReset == s.connections[id].wasReset
  {
    if actions != [] {
      var n := |actions| - 1;
      assert Stays(actions[..n], id) && actions[n] in actions;
      VerdictStays(s, actions[..n], id);
      StepKeepsVerdict(Run(s, actions[..n]), actions[n], id);
    }
  }

  lemma {:induction false} RunAfter(s: System, first: seq<Action>, more: seq<Action>)
    requires s.ring.capacity > 0
    ensures Run(Run(s, first), more) == Run(s, first + more)
  {
    if more == [] {
      assert first + [] == first;
    } else {
      var n := |more| - 1;
      assert (first + more)[..|first + more| - 1] == first + more[..n];
      RunAfter(s, first, more[..n]);
    }
  }

  lemma ReachableAfter(s: System, more: seq<Action>)
    requires Reachable(s) && s.ring.capacity > 0
    ensures Reachable(Run(s, more))
  {
    var epoch, capacity: nat, maxClients, actions :|
      capacity > 0 && s == Run(Start(epoch, capacity, maxClients), actions);
    RunAfter(Start(epoch, capacity, maxClients), actions, more);
  }

  /**
   The client is told exactly when it must start over.  From the step that reads the backlog on, however
   the run goes on while the stream stays: the stream counts as reset exactly when its header could not be
   answered then, and once live it has said both reset frames, before any other, in that case and no
   reset frame otherwise.
   */
  lemma ResetsAreSaidExactlyWhenUnanswerable(s: System, id: nat, later: seq<Action>)
    requires Reachable(s) && s.ring.capacity > 0
    requires id in s.connections && s.connections[id].phase.Greeted? && Stays(later, id)
    ensures var unanswerable := Unanswerable(s.ring, s.connections[id].resume);
            var t := Run(Step(s, Advance(id)), later);
            && id in t.connections
            && var c := t.connections[id];
               && c.wasReset == unanswerable
               && (c.phase.Live? ==>
                     && c.out != [] && c.out[0].Hello?
                     && c.out[1..] == (if unanswerable then [ResumeReset, CompatReset] else [])
                                      + Sends(Delivered(c.out)))
               && (ResumeReset in c.out || CompatReset in c.out ==> unanswerable)
  {
    TranscriptOfEveryStream(s, id);
    ResetExactlyWhenUnanswerable(s, id);
    VerdictStays(Step(s, Advance(id)), later, id);
    assert [Advance(id)][..0] == [];
    assert Run(s, [Advance(id)]) == Step(s, Advance(id));
    RunAfter(s, [Advance(id)], later);
    ReachableAfter(s, [Advance(id)] + later);
    var t := Run(Step(s, Advance(id)), later);
    TranscriptOfEveryStream(t, id);
    ResetsOnlyWhenReset(t.ring, t.connections[id]);
  }

  lemma ResetsOnlyWhenReset(r: Ring, c: Connection)
    requires Spoken(r, c) && BacklogRead(c)
    ensures ResumeReset in c.out || CompatReset in c.out ==> c.wasReset
  {
    assert forall o <- Sends(Delivered(c.out)) :: o.Sent?;
    assert c.out == [c.out[0]] + c.out[1..];
  }

  // ---- what a stream still has to say, and that it says it

  /** What the backlog read owes the client, or what is left of it. */
  function Owed(r: Ring, log: seq<Frame>, c: Connection): seq<Out>
    requires c.cutoff <= |log|
  {
    match c.phase
    case Resetting => [ResumeReset, CompatReset]
    case ResettingCompat => [CompatReset]
    case Replaying(pending) => Sends(pending)
    case Live => []
    case _ =>
      if Unanswerable(r, c.resume) then [ResumeReset, CompatReset]
      else if c.resume.At? && c.resume.n < c.cutoff then Sends(log[c.resume.n..c.cutoff])
      else []
  }

  /** All that a stream says from now on, if nothing more is published. */
  function ToSay(r: Ring, log: seq<Frame>, c: Connection): seq<Out>
    requires c.cutoff <= |log|
  {
    (if c.phase.Attached? then [Hello(r.epoch, r.n)] else []) + Owed(r, log, c) + Sends(c.queue)
  }

  function Effort(r: Ring, log: seq<Frame>, c: Connection): nat
    requires c.cutoff <= |log|
  {
    |ToSay(r, log, c)| + match c.phase case Attached => 3 case Greeted => 2 case Live => 0 case _ => 1
  }

  lemma SendsCons(frames: seq<Frame>)
    requires frames != []
    ensures Sends(frames) == [Sent(frames[0])] + Sends(frames[1..])
  {
  }

  /** The turn said the next thing that was to be said, or came closer to it. */
  ghost predicate GoesOn(r: Ring, log: seq<Frame>, c: Connection, after: Connection) {
    && c.cutoff == after.cutoff <= |log|
    && after.out + ToSay(r, log, after) == c.out + ToSay(r, log, c)
    && Effort(r, log, after) < Effort(r, log, c)
  }

  lemma SayingGoesOn(r: Ring, log: seq<Frame>, c: Connection, after: Connection, o: Out)
    requires c.cutoff == after.cutoff <= |log|
    requires after.out == c.out + [o] && ToSay(r, log, c) == [o] + ToSay(r, log, after)
    requires c.phase.Live? ==> after.phase.Live?
    requires c.phase.Attached? ==> after.phase.Greeted?
    requires !c.phase.Attached? ==> !after.phase.Attached? && !after.phase.Greeted?
    ensures GoesOn(r, log, c, after)
  {
    assert c.out + [o] + ToSay(r, log, after) == c.out + ([o] + ToSay(r, log, after));
  }

  lemma AttachedTurn(r: Ring, log: seq<Frame>, c: Connection)
    requires c.cutoff <= |log| && c.phase.Attached?
    ensures GoesOn(r, log, c, AdvanceStream(r, c))
  {
    var after := AdvanceStream(r, c);
    assert ToSay(r, log, c) == [Hello(r.epoch, r.n)] + ToSay(r, log, after);
    SayingGoesOn(r, log, c, after, Hello(r.epoch, r.n));
  }

  /** Reading the backlog settles what is owed, and owes no more or less for it. */
  lemma ReadingOwesTheSame(r: Ring, log: seq<Frame>, c: Connection)
    requires Represents(r, log) && StreamInvariant(r, log, c) && c.phase.Greeted?
    ensures ReadBacklog(r, c).wasReset == Unanswerable(r, c.resume)
    ensures Owed(r, log, ReadBacklog(r, c)) == Owed(r, log, c)
  {
    SinceAnswers(r, log, c.resume);
    if !Unanswerable(r, c.resume) {
      BacklogIsLogUpToCutoff(r, log, c);
      assert log[c.cutoff..c.cutoff] == [] && Sends([]) == [];
    }
  }

  lemma GreetedTurn(r: Ring, log: seq<Frame>, c: Connection)
    requires Represents(r, log) && StreamInvariant(r, log, c) && c.phase.Greeted?
    ensures GoesOn(r, log, c, AdvanceStream(r, c))
  {
    ReadingOwesTheSame(r, log, c);
  }

  lemma ResettingTurn(r: Ring, log: seq<Frame>, c: Connection)
    requires c.cutoff <= |log| && (c.phase.Resetting? || c.phase.ResettingCompat?)
    ensures GoesOn(r, log, c, AdvanceStream(r, c))
  {
    var after := AdvanceStream(r, c);
    var o := if c.phase.Resetting? then ResumeReset else CompatReset;
    assert Owed(r, log, c) == [o] + Owed(r, log, after);
    assert ToSay(r, log, c) == [o] + ToSay(r, log, after);
    SayingGoesOn(r, log, c, after, o);
  }

  lemma ReplayingTurn(r: Ring, log: seq<Frame>, c: Connection)
    requires c.cutoff <= |log| && c.phase.Replaying? && c.phase.pending != []
    ensures GoesOn(r, log, c, AdvanceStream(r, c))
  {
    var after, pending := AdvanceStream(r, c), c.phase.pending;
    SendsCons(pending);
    assert Owed(r, log, c) == [Sent(pending[0])] + Owed(r, log, after);
    assert [] + ([Sent(pending[0])] + Owed(r, log, after)) + Sends(c.queue)
        == [Sent(pending[0])] + ([] + Owed(r, log, after) + Sends(c.queue));
    SayingGoesOn(r, log, c, after, Sent(pending[0]));
  }

  lemma ReplayedTurn(r: Ring, log: seq<Frame>, c: Connection)
    requires c.cutoff <= |log| && c.phase == Replaying([])
    ensures GoesOn(r, log, c, AdvanceStream(r, c))
  {
    assert Sends([]) == [];
  }

  lemma LiveTurn(r: Ring, log: seq<Frame>, c: Connection)
    requires c.cutoff <= |log| && c.phase.Live? && c.queue != []
    requires AfterCutoff(c.queue[0], c.cutoffEpoch, c.cutoff)
    ensures GoesOn(r, log, c, AdvanceStream(r, c))
  {
    var after := AdvanceStream(r, c);
    SendsCons(c.queue);
    assert ToSay(r, log, c) == [Sent(c.queue[0])] + ToSay(r, log, after);
    SayingGoesOn(r, log, c, after, Sent(c.queue[0]));
  }

  lemma OneTurn(r: Ring, log: seq<Frame>, c: Connection)
    requires Represents(r, log) && StreamInvariant(r, log, c) && !(c.phase.Live? && c.queue == [])
    ensures GoesOn(r, log, c, AdvanceStream(r, c))
  {
    match c.phase
    case Attached => AttachedTurn(r, log, c);
    case Greeted => GreetedTurn(r, log, c);
    case Replaying(pending) =>
      if pending != [] {
        ReplayingTurn(r, log, c);
      } else {
        ReplayedTurn(r, log, c);
      }
    case Live =>
      assert c.queue[0] in c.queue;
      LiveTurn(r, log, c);
    case _ => ResettingTurn(r, log, c);
  }

  lemma OneTurnOfTheSystem(s: System, id: nat)
    requires Reachable(s) && id in s.connections
    ensures s.ring.capacity > 0 && Reachable(Step(s, Advance(id)))
    ensures var t := Step(s, Advance(id));
            && t.ring == s.ring && t.log == s.log
            && t.connections == s.connections[id := AdvanceStream(s.ring, s.connections[id])]
    ensures Run(s, [Advance(id)]) == Step(s, Advance(id))
  {
    ReachableStream(s, id);
    assert [Advance(id)][..0] == [];
    assert Run(s, [Advance(id)]) == Step(s, Advance(id));
    ReachableAfter(s, [Advance(id)]);
  }

  /** The turns are all of that stream, and after them it is live and idle and has said all it had to say. */
  ghost predicate Serves(s: System, id: nat, turns: seq<Action>)
    requires s.ring.capacity > 0 && id in s.connections && s.connections[id].cutoff <= |s.log|
  {
    var c, t := s.connections[id], Run(s, turns);
    && (forall a <- turns :: a == Advance(id))
    && t.ring == s.ring && t.log == s.log && t.connections.Keys == s.connections.Keys
    && (forall other <- s.connections :: other != id ==> t.connections[other] == s.connections[other])
    && t.connections[id].phase.Live? && t.connections[id].queue == []
    && t.connections[id].out == c.out + ToSay(s.ring, s.log, c)
  }

  lemma OneMoreTurnServes(s: System, id: nat, more: seq<Action>)
    requires Reachable(s) && id in s.connections && s.ring.capacity > 0 && s.connections[id].cutoff <= |s.log|
    requires GoesOn(s.ring, s.log, s.connections[id], AdvanceStream(s.ring, s.connections[id]))
    requires Serves(Step(s, Advance(id)), id, more)
    ensures Serves(s, id, [Advance(id)] + more)
  {
    OneTurnOfTheSystem(s, id);
    RunAfter(s, [Advance(id)], more);
  }

  lemma IdleIsServed(s: System, id: nat)
    requires s.ring.capacity > 0 && id in s.connections && s.connections[id].cutoff <= |s.log|
    requires s.connections[id].phase.Live? && s.connections[id].queue == []
    ensures Serves(s, id, [])
  {
    var c := s.connections[id];
    assert c.out + ToSay(s.ring, s.log, c) == c.out;
  }

  /**
   A client that is served is told everything.  Given enough turns with nothing published meanwhile, a
   stream in any phase of any reachable system ends live with an empty queue, having said, after what it
   had said before, exactly: the greeting with the newest number; the two resets when its header cannot be
   answered, and otherwise the log from its position up to its cutoff; and every frame in its queue.
   */
  lemma ServedToTheEnd(s: System, id: nat) returns (turns: seq<Action>)
    requires Reachable(s) && id in s.connections
    ensures s.ring.capacity > 0 && s.connections[id].cutoff <= |s.log| && Serves(s, id, turns)
    decreases if s.connections[id].cutoff <= |s.log| then Effort(s.ring, s.log, s.connections[id]) else 0
  {
    ReachableStream(s, id);
    var c := s.connections[id];
    if c.phase.Live? && c.queue == [] {
      turns := [];
      IdleIsServed(s, id);
    } else {
      OneTurn(s.ring, s.log, c);
      OneTurnOfTheSystem(s, id);
      var more := ServedToTheEnd(Step(s, Advance(id)), id);
      turns := [Advance(id)] + more;
      OneMoreTurnServes(s, id, more);
    }
  }

  // ---- what each action does to the streams

  /** A new stream starts at the newest number with nothing said and nothing queued; a full bus admits none. */
  lemma AttachOpensOneStream(s: System, id: nat, resume: Resume)
    requires s.ring.capacity > 0
    ensures Step(s, Attach(id, resume)) ==
              if id in s.connections || |s.connections| >= s.maxClients then s
              else s.(connections :=
                        s.connections[id := Connection([], s.ring.epoch, s.ring.n, resume, Attached, [], false)])
  {
  }

  lemma DetachEndsOneStream(s: System, id: nat)
    requires s.ring.capacity > 0
    ensures Step(s, Detach(id)) == s.(connections := s.connections - {id})
  {
  }

  /**
   A publish appends the very event to the log under the next number, and to the queue of every stream;
   a queue that is full is left with one overflow reset of that number instead.
   */
  lemma PublishReachesEveryStream(s: System, event: string, data: string)
    requires s.ring.capacity > 0
    ensures var t, n := Step(s, Publish(event, data)), s.ring.n + 1;
            && t.ring.n == n && t.ring.epoch == s.ring.epoch && t.ring.capacity == s.ring.capacity
            && t.log == s.log + [Published(s.ring.epoch, n, event, data)]
            && t.connections.Keys == s.connections.Keys
            && forall id <- s.connections ::
                 var queue := s.connections[id].queue;
                 t.connections[id] == s.connections[id].(queue :=
                   if |queue| < s.ring.capacity then queue + [Published(s.ring.epoch, n, event, data)]
                   else [OverflowReset(s.ring.epoch, n)])
  {
  }
}
