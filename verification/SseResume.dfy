/** Every interleaving of publishers with the event streams that resume from the bus. */
module SseResume {
  // One connection attaches its queue and reads its cutoff in one step; greeting the client, reading
  // the ring backlog, sending each frame and leaving are later steps, with any number of publishes
  // between any two of them.

  import opened R = Ring

  datatype Phase =
    | Attached
    | Greeted
    | Resetting
    | ResettingCompat
    | Replaying(pending: seq<Frame>)
    | Live

  datatype Out = Hello(epoch: string, resume: nat) | ResumeReset | CompatReset | Sent(frame: Frame)

  /** One event stream; `wasReset` remembers how the backlog read was answered. */
  datatype Connection = Connection(
    queue: seq<Frame>,
    cutoffEpoch: string,
    cutoff: nat,
    resume: Resume,
    phase: Phase,
    out: seq<Out>,
    wasReset: bool)

  /** `log` is the unbounded record of everything published; no step reads it. */
  datatype System = System(ring: Ring, log: seq<Frame>, maxClients: nat, connections: map<nat, Connection>)

  datatype Action =
    | Publish(event: string, data: string)
    | Attach(id: nat, resume: Resume)
    | Advance(id: nat)
    | Detach(id: nat)

  function Opened(r: Ring, resume: Resume): Connection {
    Connection([], r.epoch, r.n, resume, Attached, [], false)
  }

  function UpToCutoff(frames: seq<Frame>, epoch: string, cutoff: nat): seq<Frame> {
    if frames == [] then []
    else (if AfterCutoff(frames[0], epoch, cutoff) then [] else [frames[0]])
         + UpToCutoff(frames[1..], epoch, cutoff)
  }

  function ReadBacklog(r: Ring, c: Connection): Connection {
    var replay := Since(r, c.resume);
    if replay.needsReset then c.(phase := Resetting, wasReset := true)
    else c.(phase := Replaying(UpToCutoff(replay.backlog, c.cutoffEpoch, c.cutoff)))
  }

  /** The next step of the generator behind one stream. */
  function AdvanceStream(r: Ring, c: Connection): Connection {
    match c.phase
    case Attached => c.(phase := Greeted, out := c.out + [Hello(r.epoch, r.n)])
    case Greeted => ReadBacklog(r, c)
    case Resetting => c.(phase := ResettingCompat, out := c.out + [ResumeReset])
    case ResettingCompat => c.(phase := Live, out := c.out + [CompatReset])
    case Replaying(pending) =>
      if pending == [] then c.(phase := Live)
      else c.(phase := Replaying(pending[1..]), out := c.out + [Sent(pending[0])])
    case Live =>
      if c.queue == [] then c
      else if AfterCutoff(c.queue[0], c.cutoffEpoch, c.cutoff)
      then c.(queue := c.queue[1..], out := c.out + [Sent(c.queue[0])])
      else c.(queue := c.queue[1..])
  }

  function Receive(c: Connection, capacity: nat, frame: Frame): Connection {
    c.(queue := Offer(c.queue, capacity, frame))
  }

  /** A step an action cannot take leaves the system as it is. */
  function Step(s: System, a: Action): System
    requires s.ring.capacity > 0
  {
    match a
    case Publish(event, data) =>
      var frame := NextFrame(s.ring, event, data);
      s.(ring := R.Publish(s.ring, event, data),
         log := s.log + [frame],
         connections := map id <- s.connections :: Receive(s.connections[id], s.ring.capacity, frame))
    case Attach(id, resume) =>
      if id in s.connections || |s.connections| >= s.maxClients then s
      else s.(connections := s.connections[id := Opened(s.ring, resume)])
    case Advance(id) =>
      if id !in s.connections then s
      else s.(connections := s.connections[id := AdvanceStream(s.ring, s.connections[id])])
    case Detach(id) => s.(connections := s.connections - {id})
  }

  function Start(epoch: string, capacity: nat, maxClients: nat): System {
    System(R.Ring(epoch, capacity, 0, []), [], maxClients, map[])
  }

  function Run(s: System, actions: seq<Action>): (final: System)
    requires s.ring.capacity > 0
    ensures final.ring.capacity > 0
  {
    if actions == [] then s
    else Step(Run(s, actions[..|actions| - 1]), actions[|actions| - 1])
  }

  /** Frames already handed to the client, in order. */
  function Delivered(out: seq<Out>): seq<Frame> {
    if out == [] then []
    else Delivered(out[..|out| - 1])
         + match out[|out| - 1] case Sent(frame) => [frame] case _ => []
  }

  function Pending(phase: Phase): seq<Frame> {
    if phase.Replaying? then phase.pending else []
  }

  /** Delivered, waiting in the replay, and queued: the whole future of the stream as now known. */
  function Frames(c: Connection): seq<Frame> {
    Delivered(c.out) + Pending(c.phase) + c.queue
  }

  predicate BacklogRead(c: Connection) {
    !c.phase.Attached? && !c.phase.Greeted?
  }

  /** The last id the client is taken to hold before the first frame it is sent. */
  function Base(c: Connection): nat {
    if !BacklogRead(c) || c.wasReset || !c.resume.At? || c.resume.n > c.cutoff then c.cutoff else c.resume.n
  }

  /**
   `frames` leads from id `from` to id `to` losing nothing silently: an event is the log's own and
   carries its predecessor's id plus one; only an overflow reset may jump ahead.
   */
  ghost predicate Chain(frames: seq<Frame>, from: nat, to: nat, log: seq<Frame>) {
    if frames == [] then from == to
    else
      && (if frames[0].Published? then from < |log| && frames[0] == log[from] && frames[0].n == from + 1
          else from < frames[0].n)
      && Chain(frames[1..], frames[0].n, to, log)
  }

  ghost predicate StreamInvariant(r: Ring, log: seq<Frame>, c: Connection) {
    && c.cutoffEpoch == r.epoch
    && c.cutoff <= r.n
    && |c.queue| <= r.capacity
    && (!BacklogRead(c) ==> Delivered(c.out) == [] && !c.wasReset)
    && (forall f <- c.queue :: f.epoch == r.epoch && c.cutoff < f.n)
    && Chain(Frames(c), Base(c), r.n, log)
  }

  ghost predicate Invariant(s: System) {
    && Represents(s.ring, s.log)
    && |s.connections| <= s.maxClients
    && forall id <- s.connections :: StreamInvariant(s.ring, s.log, s.connections[id])
  }

  // ---- chains

  lemma {:induction false} ChainConcat(a: seq<Frame>, b: seq<Frame>, from: nat, mid: nat, to: nat, log: seq<Frame>)
    requires Chain(a, from, mid, log) && Chain(b, mid, to, log)
    ensures Chain(a + b, from, to, log)
  {
    if a == [] {
      assert a + b == b;
    } else {
      ChainConcat(a[1..], b, a[0].n, mid, to, log);
      assert (a + b)[1..] == a[1..] + b;
    }
  }

  lemma {:induction false} ChainSplit(a: seq<Frame>, b: seq<Frame>, from: nat, to: nat, log: seq<Frame>)
    returns (mid: nat)
    requires Chain(a + b, from, to, log)
    ensures Chain(a, from, mid, log) && Chain(b, mid, to, log) && from <= mid
  {
    if a == [] {
      assert a + b == b;
      mid := from;
    } else {
      assert (a + b)[1..] == a[1..] + b;
      mid := ChainSplit(a[1..], b, a[0].n, to, log);
    }
  }

  lemma {:induction false} ChainEnds(frames: seq<Frame>, from: nat, to: nat, log: seq<Frame>)
    requires Chain(frames, from, to, log)
    ensures from <= to
    ensures forall f <- frames :: from < f.n <= to
    ensures frames != [] ==> frames[|frames| - 1].n == to
  {
    if frames != [] {
      ChainEnds(frames[1..], frames[0].n, to, log);
    }
  }

  lemma {:induction false} ChainSurvivesPublish(frames: seq<Frame>, from: nat, to: nat, log: seq<Frame>, frame: Frame)
    requires Chain(frames, from, to, log)
    ensures Chain(frames, from, to, log + [frame])
  {
    if frames != [] {
      ChainSurvivesPublish(frames[1..], frames[0].n, to, log, frame);
    }
  }

  lemma {:induction false} LogIsChain(epoch: string, log: seq<Frame>, from: nat, to: nat)
    requires IsLog(epoch, log) && from <= to <= |log|
    ensures Chain(log[from..to], from, to, log)
    decreases |log| - from
  {
    if from < to {
      LogIsChain(epoch, log, from + 1, to);
      assert log[from..to][1..] == log[from + 1..to];
    }
  }

  lemma {:induction false} UpToCutoffLog(epoch: string, log: seq<Frame>, from: nat, cutoff: nat)
    requires IsLog(epoch, log) && from <= |log| && cutoff <= |log|
    ensures UpToCutoff(log[from..], epoch, cutoff) == if from < cutoff then log[from..cutoff] else []
    decreases |log| - from
  {
    if from < |log| {
      assert log[from..][1..] == log[from + 1..];
      UpToCutoffLog(epoch, log, from + 1, cutoff);
      assert from < cutoff ==> log[from..cutoff] == [log[from]] + log[from + 1..cutoff];
    }
  }

  // ---- one step at a time

  /** A publish extends the queue while there is room, and otherwise leaves one reset in its place. */
  lemma PublishKeepsChain(r: Ring, log: seq<Frame>, c: Connection, frame: Frame)
    requires Chain(Frames(c), Base(c), r.n, log) && r.n == |log| && r.capacity > 0
    requires frame.Published? && frame.n == r.n + 1
    ensures Chain(Frames(Receive(c, r.capacity, frame)), Base(c), r.n + 1, log + [frame])
  {
    var sent := Delivered(c.out) + Pending(c.phase);
    var after := Receive(c, r.capacity, frame);
    ChainSurvivesPublish(Frames(c), Base(c), r.n, log, frame);
    if |c.queue| < r.capacity {
      ChainConcat(Frames(c), [frame], Base(c), r.n, r.n + 1, log + [frame]);
      assert Frames(after) == Frames(c) + [frame];
    } else {
      var mid := ChainSplit(sent, c.queue, Base(c), r.n, log + [frame]);
      ChainEnds(c.queue, mid, r.n, log + [frame]);
      ChainConcat(sent, after.queue, Base(c), mid, r.n + 1, log + [frame]);
    }
  }

  lemma PublishKeepsStream(r: Ring, log: seq<Frame>, c: Connection, event: string, data: string)
    requires Represents(r, log) && StreamInvariant(r, log, c)
    ensures var frame := NextFrame(r, event, data);
            StreamInvariant(R.Publish(r, event, data), log + [frame], Receive(c, r.capacity, frame))
  {
    var frame := NextFrame(r, event, data);
    PublishKeepsChain(r, log, c, frame);
    assert Base(Receive(c, r.capacity, frame)) == Base(c);
  }

  /** What the backlog read finds: the log from the client's own position up to the cutoff. */
  lemma BacklogIsLogUpToCutoff(r: Ring, log: seq<Frame>, c: Connection)
    requires Represents(r, log) && c.cutoffEpoch == r.epoch && c.cutoff <= r.n && !c.wasReset
    ensures var after := ReadBacklog(r, c);
            !after.wasReset ==>
              var base := Base(after);
              base <= c.cutoff && after.phase == Replaying(log[base..c.cutoff])
  {
    var after := ReadBacklog(r, c);
    if !after.wasReset && c.resume.At? {
      var m := c.resume.n;
      SinceRefinesLog(r, log, m);
      UpToCutoffLog(r.epoch, log, m, c.cutoff);
    }
  }

  /** The gap between cutoff and backlog read: whatever was published in it, nothing is lost or doubled. */
  lemma BacklogReadKeepsChain(r: Ring, log: seq<Frame>, c: Connection)
    requires Represents(r, log) && c.cutoffEpoch == r.epoch && c.cutoff <= r.n && !c.wasReset
    requires Delivered(c.out) == [] && Chain(c.queue, c.cutoff, r.n, log)
    ensures var after := ReadBacklog(r, c);
            Chain(Frames(after), Base(after), r.n, log)
  {
    var after := ReadBacklog(r, c);
    BacklogIsLogUpToCutoff(r, log, c);
    FramesAfterRead(r, c);
    if !after.wasReset {
      var base := Base(after);
      LogIsChain(r.epoch, log, base, c.cutoff);
      ChainConcat(log[base..c.cutoff], c.queue, base, c.cutoff, r.n, log);
    }
  }

  lemma FramesAfterRead(r: Ring, c: Connection)
    requires Delivered(c.out) == [] && !c.wasReset
    ensures var after := ReadBacklog(r, c);
            && Frames(after) == Pending(after.phase) + c.queue
            && (after.wasReset ==> Frames(after) == c.queue && Base(after) == c.cutoff)
  {
  }

  lemma DeliveredSent(out: seq<Out>, o: Out)
    ensures Delivered(out + [o]) == Delivered(out) + (if o.Sent? then [o.frame] else [])
  {
    assert (out + [o])[..|out|] == out;
  }

  lemma ReplayingMovesFrames(r: Ring, c: Connection)
    requires c.phase.Replaying? && c.phase.pending != []
    ensures Frames(AdvanceStream(r, c)) == Frames(c)
  {
    var pending := c.phase.pending;
    assert pending == [pending[0]] + pending[1..];
    DeliveredSent(c.out, Sent(pending[0]));
    assert Delivered(c.out) + [pending[0]] + pending[1..] == Delivered(c.out) + pending;
  }

  lemma LiveMovesFrames(r: Ring, c: Connection)
    requires c.phase.Live? && (c.queue != [] ==> AfterCutoff(c.queue[0], c.cutoffEpoch, c.cutoff))
    ensures Frames(AdvanceStream(r, c)) == Frames(c)
  {
    if c.queue != [] {
      DeliveredSent(c.out, Sent(c.queue[0]));
      assert Delivered(c.out) + [c.queue[0]] + c.queue[1..] == Delivered(c.out) + c.queue;
    }
  }

  /** Neither the greeting nor a resume reset moves a frame. */
  lemma SpeakingMovesNoFrames(r: Ring, c: Connection)
    requires c.phase.Attached? || c.phase.Resetting? || c.phase.ResettingCompat?
    ensures Frames(AdvanceStream(r, c)) == Frames(c) && Delivered(AdvanceStream(r, c).out) == Delivered(c.out)
  {
    DeliveredSent(c.out, if c.phase.Attached? then Hello(r.epoch, r.n)
                         else if c.phase.Resetting? then ResumeReset else CompatReset);
  }

  /** What is known of a stream depends on its frames, its base and its queue, not on where the frames stand. */
  lemma SameFramesKeepStream(r: Ring, log: seq<Frame>, c: Connection, after: Connection)
    requires StreamInvariant(r, log, c) && BacklogRead(after)
    requires after.cutoffEpoch == c.cutoffEpoch && after.cutoff == c.cutoff
    requires Frames(after) == Frames(c) && Base(after) == Base(c)
    requires |after.queue| <= |c.queue| && forall f <- after.queue :: f in c.queue
    ensures StreamInvariant(r, log, after)
  {
  }

  lemma SendingKeepsBase(r: Ring, c: Connection)
    requires BacklogRead(c)
    ensures var after := AdvanceStream(r, c);
            && BacklogRead(after) && Base(after) == Base(c)
            && after.cutoffEpoch == c.cutoffEpoch && after.cutoff == c.cutoff
            && |after.queue| <= |c.queue| && forall f <- after.queue :: f in c.queue
  {
  }

  /** Outside the backlog read a step only moves frames along: what is known of the stream stays. */
  lemma MovingKeepsStream(r: Ring, log: seq<Frame>, c: Connection)
    requires StreamInvariant(r, log, c) && !c.phase.Greeted?
    ensures StreamInvariant(r, log, AdvanceStream(r, c))
  {
    assert c.queue != [] ==> AfterCutoff(c.queue[0], c.cutoffEpoch, c.cutoff);
    if c.phase.Replaying? && c.phase.pending != [] {
      ReplayingMovesFrames(r, c);
    } else if c.phase.Live? {
      LiveMovesFrames(r, c);
    } else if !c.phase.Replaying? {
      SpeakingMovesNoFrames(r, c);
    }
    if BacklogRead(c) {
      SendingKeepsBase(r, c);
      SameFramesKeepStream(r, log, c, AdvanceStream(r, c));
    }
  }

  lemma ReadingKeepsStream(r: Ring, log: seq<Frame>, c: Connection)
    requires Represents(r, log) && StreamInvariant(r, log, c) && c.phase.Greeted?
    ensures StreamInvariant(r, log, AdvanceStream(r, c))
  {
    assert Frames(c) == c.queue;
    BacklogReadKeepsChain(r, log, c);
  }

  lemma PublishKeepsInvariant(s: System, event: string, data: string)
    requires Invariant(s)
    ensures Invariant(Step(s, Publish(event, data)))
  {
    var after := Step(s, Publish(event, data));
    PublishRepresents(s.ring, s.log, event, data);
    forall id <- s.connections ensures StreamInvariant(after.ring, after.log, after.connections[id]) {
      PublishKeepsStream(s.ring, s.log, s.connections[id], event, data);
    }
    SmallerSize(after.connections, s.connections);
  }

  lemma AdvanceKeepsInvariant(s: System, id: nat)
    requires Invariant(s) && id in s.connections
    ensures Invariant(Step(s, Advance(id)))
  {
    var r, log, c := s.ring, s.log, s.connections[id];
    if c.phase.Greeted? {
      ReadingKeepsStream(r, log, c);
    } else {
      MovingKeepsStream(r, log, c);
    }
    SmallerSize(Step(s, Advance(id)).connections, s.connections);
  }

  lemma AttachKeepsInvariant(s: System, id: nat, resume: Resume)
    requires Invariant(s)
    ensures Invariant(Step(s, Attach(id, resume)))
  {
  }

  lemma DetachKeepsInvariant(s: System, id: nat)
    requires Invariant(s)
    ensures Invariant(Step(s, Detach(id)))
  {
    var after := Step(s, Detach(id));
    forall other <- after.connections ensures StreamInvariant(after.ring, after.log, after.connections[other]) {
      assert after.connections[other] == s.connections[other];
    }
    SmallerSize(after.connections, s.connections);
  }

  lemma StepKeepsInvariant(s: System, a: Action)
    requires Invariant(s)
    ensures Invariant(Step(s, a))
  {
    match a
    case Publish(event, data) => PublishKeepsInvariant(s, event, data);
    case Attach(id, resume) => AttachKeepsInvariant(s, id, resume);
    case Advance(id) =>
      if id in s.connections {
        AdvanceKeepsInvariant(s, id);
      }
    case Detach(id) => DetachKeepsInvariant(s, id);
  }

  lemma SmallerSize<K, V, W>(a: map<K, V>, b: map<K, W>)
    requires a.Keys <= b.Keys
    ensures |a| <= |b|
  {
    assert b.Keys == a.Keys + (b.Keys - a.Keys);
    assert |a| == |a.Keys| && |b| == |b.Keys|;
  }

  ghost predicate Reachable(s: System) {
    exists epoch, capacity: nat, maxClients, actions ::
      capacity > 0 && s == Run(Start(epoch, capacity, maxClients), actions)
  }

  lemma {:induction false} RunKeepsInvariant(s: System, actions: seq<Action>)
    requires Invariant(s)
    ensures Invariant(Run(s, actions))
  {
    if actions != [] {
      RunKeepsInvariant(s, actions[..|actions| - 1]);
      StepKeepsInvariant(Run(s, actions[..|actions| - 1]), actions[|actions| - 1]);
    }
  }

  // ---- what the invariant means

  ghost predicate NoOverflow(frames: seq<Frame>) {
    forall f <- frames :: f.Published?
  }

  lemma {:induction false} ChainWithoutResetLength(frames: seq<Frame>, from: nat, to: nat, log: seq<Frame>)
    requires Chain(frames, from, to, log) && NoOverflow(frames)
    ensures to == from + |frames|
  {
    if frames != [] {
      assert frames[0] in frames && forall f <- frames[1..] :: f in frames;
      ChainWithoutResetLength(frames[1..], frames[0].n, to, log);
    }
  }

  /** Without a reset, the frame at each position of a chain is the log's own. */
  lemma {:induction false} ChainWithoutResetAt(frames: seq<Frame>, from: nat, to: nat, log: seq<Frame>, i: nat)
    requires Chain(frames, from, to, log) && NoOverflow(frames) && i < |frames| && to <= |log|
    ensures from + i < |log| && frames[i] == log[from + i]
  {
    assert frames[0] in frames && forall f <- frames[1..] :: f in frames;
    if i > 0 {
      ChainWithoutResetAt(frames[1..], frames[0].n, to, log, i - 1);
    }
  }

  lemma {:induction false} ChainCovers(frames: seq<Frame>, from: nat, to: nat, log: seq<Frame>, id: nat)
    requires Chain(frames, from, to, log) && from < id <= to
    ensures AccountedFor(frames, id)
  {
    if frames[0].n < id {
      ChainCovers(frames[1..], frames[0].n, to, log, id);
    } else {
      assert frames[0] in frames;
    }
  }

  lemma {:induction false} ChainSteps(frames: seq<Frame>, from: nat, to: nat, log: seq<Frame>, i: nat)
    requires Chain(frames, from, to, log) && i < |frames|
    ensures FollowsOn(frames, from, log, i)
  {
    if i > 0 {
      ChainSteps(frames[1..], frames[0].n, to, log, i - 1);
    }
  }

  lemma SentPrefixIsLog(sent: seq<Frame>, pending: seq<Frame>, queue: seq<Frame>,
                        from: nat, to: nat, log: seq<Frame>)
    requires Chain(sent + pending + queue, from, to, log) && to == |log| && NoOverflow(sent)
    ensures from + |sent| <= |log| && sent == log[from..from + |sent|]
  {
    assert sent + pending + queue == sent + (pending + queue);
    var mid := ChainSplit(sent, pending + queue, from, to, log);
    ChainEnds(pending + queue, mid, to, log);
    ChainWithoutResetLength(sent, from, mid, log);
    forall i: nat | i < |sent| ensures from + i < |log| && sent[i] == log[from + i] {
      ChainWithoutResetAt(sent, from, mid, log, i);
    }
  }

  /**
   Exactly-once resume.  In every reachable system, a stream that has not met an overflow reset has
   delivered precisely the log's events after its base: in order, without a gap or a duplicate.  The
   base is the id the client resumed from (at most the cutoff), unless the resume itself was answered
   by a reset or named no position, and then it is the attach cutoff.
   */
  lemma ExactlyOnce(s: System, id: nat)
    requires Reachable(s) && id in s.connections && NoOverflow(Delivered(s.connections[id].out))
    ensures var c := s.connections[id];
            var sent := Delivered(c.out);
            && Base(c) + |sent| <= |s.log|
            && sent == s.log[Base(c)..Base(c) + |sent|]
  {
    ReachableStream(s, id);
    StreamSendsLog(s.ring, s.log, s.connections[id]);
  }

  lemma ReachableStream(s: System, id: nat)
    requires Reachable(s) && id in s.connections
    ensures Represents(s.ring, s.log) && s.ring.n == |s.log|
    ensures StreamInvariant(s.ring, s.log, s.connections[id])
  {
    var epoch, capacity: nat, maxClients, actions :|
      capacity > 0 && s == Run(Start(epoch, capacity, maxClients), actions);
    RunKeepsInvariant(Start(epoch, capacity, maxClients), actions);
  }

  lemma StreamSendsLog(r: Ring, log: seq<Frame>, c: Connection)
    requires r.n == |log| && StreamInvariant(r, log, c) && NoOverflow(Delivered(c.out))
    ensures Base(c) + |Delivered(c.out)| <= |log|
    ensures Delivered(c.out) == log[Base(c)..Base(c) + |Delivered(c.out)|]
  {
    SentPrefixIsLog(Delivered(c.out), Pending(c.phase), c.queue, Base(c), r.n, log);
  }

  /** Position i of a stream: later than what precedes it, and by exactly one when it is an event. */
  ghost predicate FollowsOn(frames: seq<Frame>, base: nat, log: seq<Frame>, i: nat)
    requires i < |frames|
  {
    var previous := if i == 0 then base else frames[i - 1].n;
    && previous < frames[i].n
    && (frames[i].Published? ==> frames[i].n == previous + 1 && previous < |log| && frames[i] == log[previous])
  }

  /** Id n arrives as its own event, or an overflow reset at or after it stands in for it. */
  ghost predicate AccountedFor(frames: seq<Frame>, n: nat) {
    exists f <- frames :: (f.Published? && f.n == n) || (f.OverflowReset? && f.n >= n)
  }

  /**
   Loss or reset.  In every reachable system, what a stream has delivered, is replaying and has
   queued strictly increases, ends at the newest id, and accounts for every id after the base.
   */
  lemma LossOrReset(s: System, id: nat)
    requires Reachable(s) && id in s.connections
    ensures var c := s.connections[id];
            && |c.queue| <= s.ring.capacity
            && (if Frames(c) == [] then Base(c) else Frames(c)[|Frames(c)| - 1].n) == s.ring.n
            && (forall i: nat :: i < |Frames(c)| ==> FollowsOn(Frames(c), Base(c), s.log, i))
            && (forall n: nat :: Base(c) < n <= s.ring.n ==> AccountedFor(Frames(c), n))
  {
    ReachableStream(s, id);
    var c := s.connections[id];
    ChainEnds(Frames(c), Base(c), s.ring.n, s.log);
    forall i: nat | i < |Frames(c)| ensures FollowsOn(Frames(c), Base(c), s.log, i) {
      ChainSteps(Frames(c), Base(c), s.ring.n, s.log, i);
    }
    forall n: nat | Base(c) < n <= s.ring.n ensures AccountedFor(Frames(c), n) {
      ChainCovers(Frames(c), Base(c), s.ring.n, s.log, n);
    }
  }

  /** The live filter never drops a queued frame, overflow resets included. */
  lemma LiveFilterDropsNothing(s: System, id: nat)
    requires Reachable(s) && id in s.connections
    ensures var c := s.connections[id];
            && (forall f <- c.queue :: AfterCutoff(f, c.cutoffEpoch, c.cutoff))
            && (c.phase.Live? && c.queue != [] ==>
                  AdvanceStream(s.ring, c).out == c.out + [Sent(c.queue[0])])
  {
    ReachableStream(s, id);
    assert s.connections[id].queue != [] ==> s.connections[id].queue[0] in s.connections[id].queue;
  }

  /**
   When the backlog is read, however late, a resume is answered by a reset exactly when the header is
   unreadable, of another process, from the future, or more than `capacity` events behind by then.
   */
  lemma ResetExactlyWhenUnanswerable(s: System, id: nat)
    requires Reachable(s) && id in s.connections && s.connections[id].phase.Greeted?
    ensures var c := s.connections[id];
            AdvanceStream(s.ring, c).wasReset <==>
              c.resume.Malformed?
              || (c.resume.At? && (c.resume.epoch != s.ring.epoch || c.resume.n > s.ring.n
                                   || s.ring.n - c.resume.n > s.ring.capacity))
  {
    ReachableStream(s, id);
    SinceAnswers(s.ring, s.log, s.connections[id].resume);
  }
}
