/** The startup backfill: a look at each agent's last message, then a bounded walk over several streams. */
module Replays {
  // What the broker answers is given: per agent, the outcome of its lookup; per stream, whether the
  // subscription succeeds, and the outcome of each successive fetch.  A fetch beyond the listed ones times
  // out.  Also given is what happens meanwhile: the highest sequence number that sends are acknowledged
  // during each wait for the broker.

  import opened Wrappers

  const MAX_REPLAY_MESSAGES: nat := 5000
  const REPLAY_FETCH_BATCH: nat := 500

  /** A message; `number` is its stream sequence, absent when its metadata cannot be read. */
  datatype Msg = Msg(number: Option<int>, subject: string, data: string)
  datatype Fetch = Batch(msgs: seq<Msg>) | TimedOut | Broke
  datatype Stream = Stream(name: string, subscribes: bool, fetches: seq<Fetch>)
  datatype Tagged = Tagged(stream: string, msg: Msg)

  datatype Lookup = Answered | NotFound | LookupBroke
  datatype Agent = Agent(active: bool, subject: string, lookup: Lookup)

  /** The highest sequence number acknowledged to a send during the n-th wait, if any. */
  type Sends = nat -> Option<int>

  /** Only active agents with a subject are looked up; that there is no message yet is no error. */
  predicate LooksUp(agent: Agent) {
    !agent.active || agent.subject == "" || !agent.lookup.LookupBroke?
  }

  /** Every message from the i-th fetch on, up to the first short or empty batch, timeout or failure. */
  function Drain(fetches: seq<Fetch>, i: nat): seq<Msg>
    decreases |fetches| - i
  {
    if i >= |fetches| || !fetches[i].Batch? then []
    else if |fetches[i].msgs| < REPLAY_FETCH_BATCH then fetches[i].msgs
    else fetches[i].msgs + Drain(fetches, i + 1)
  }

  /** The walk ends by itself: on a short or empty batch or a timeout, not on a failure. */
  predicate EndsNaturally(fetches: seq<Fetch>, i: nat)
    decreases |fetches| - i
  {
    i >= |fetches| || fetches[i].TimedOut?
    || (fetches[i].Batch? && (|fetches[i].msgs| < REPLAY_FETCH_BATCH || EndsNaturally(fetches, i + 1)))
  }

  function Tag(name: string, msgs: seq<Msg>): (tagged: seq<Tagged>)
    ensures |tagged| == |msgs|
    ensures forall i :: 0 <= i < |msgs| ==> tagged[i] == Tagged(name, msgs[i])
  {
    seq(|msgs|, i requires 0 <= i < |msgs| => Tagged(name, msgs[i]))
  }

  function Offered(s: Stream): seq<Tagged> {
    if s.subscribes then Tag(s.name, Drain(s.fetches, 0)) else []
  }

  /** Everything the streams hold for the walk, in the order of the walk. */
  function AllOffered(streams: seq<Stream>): seq<Tagged> {
    if streams == [] then [] else AllOffered(streams[..|streams| - 1]) + Offered(streams[|streams| - 1])
  }

  function Capped(msgs: seq<Tagged>): seq<Tagged> {
    if |msgs| <= MAX_REPLAY_MESSAGES then msgs else msgs[..MAX_REPLAY_MESSAGES]
  }

  /** What has been handled once the walk of a stream, now at its i-th fetch, is over. */
  function AfterWalk(handled: seq<Tagged>, s: Stream, i: nat): seq<Tagged> {
    Capped(handled + Tag(s.name, Drain(s.fetches, i)))
  }

  /** The highest readable sequence number among a stream's messages. */
  function HighestOf(msgs: seq<Tagged>, stream: string): Option<int> {
    if msgs == [] then None
    else
      var before := HighestOf(msgs[..|msgs| - 1], stream);
      var last := msgs[|msgs| - 1];
      if last.stream != stream then before else Higher(before, last.msg.number)
  }

  function Higher(a: Option<int>, b: Option<int>): Option<int> {
    if b.Some? && (a.None? || b.value > a.value) then b else a
  }

  /** The highest sequence number acknowledged to a send during the first n waits. */
  function HighestSent(sends: Sends, n: nat): Option<int> {
    if n == 0 then None else Higher(HighestSent(sends, n - 1), sends(n - 1))
  }

  /** A stream's highest number so far, one more number seen. */
  function Raised(tally: map<string, int>, name: string, number: Option<int>): map<string, int> {
    if number.None? || (name in tally && number.value <= tally[name]) then tally else tally[name := number.value]
  }

  ghost predicate Tallies(tally: map<string, int>, handled: seq<Tagged>) {
    forall name :: (if name in tally then Some(tally[name]) else None) == HighestOf(handled, name)
  }

  class Replayer {
    const primary: string
    const sends: Sends
    var waits: nat
    var errors: nat
    var truncated: bool
    var scanned: nat
    var streamLastSeq: map<string, int>
    var lastSeq: Option<int>
    /** The calls of the message handler, in order. */
    ghost var handled: seq<Tagged>
    ghost const lastSeqBefore: Option<int>

    ghost predicate Valid()
      reads this
    {
      && scanned == |handled| <= MAX_REPLAY_MESSAGES
      && Tallies(streamLastSeq, handled)
      && lastSeq == Higher(Higher(lastSeqBefore, HighestOf(handled, primary)), HighestSent(sends, waits))
    }

    constructor (primary: string, lastSeq: Option<int>, sends: Sends)
      ensures Valid() && handled == [] && errors == 0 && !truncated
      ensures this.primary == primary && lastSeqBefore == lastSeq && this.sends == sends
    {
      this.primary, this.lastSeq, lastSeqBefore, this.sends := primary, lastSeq, lastSeq, sends;
      waits, errors, truncated, scanned, streamLastSeq, handled := 0, 0, false, 0, map[], [];
    }

    /** A wait for the broker, during which sends may complete. */
    method Wait()
      requires Valid()
      modifies this`waits, this`lastSeq
      ensures Valid() && waits == old(waits) + 1
    {
      lastSeq := Higher(lastSeq, sends(waits));
      waits := waits + 1;
    }

    /** Looks up each agent's last message; every failed lookup is an error. */
    method FirstPass(agents: seq<Agent>)
      requires Valid() && handled == [] && errors == 0 && !truncated
      modifies this`waits, this`lastSeq, this`errors
      ensures Valid()
      ensures errors == 0 <==> forall agent <- agents :: LooksUp(agent)
    {
      for i := 0 to |agents|
        invariant Valid()
        invariant errors == 0 <==> forall j :: 0 <= j < i ==> LooksUp(agents[j])
      {
        if agents[i].active && agents[i].subject != "" {
          Wait();
          if agents[i].lookup.LookupBroke? {
            errors := errors + 1;
          }
        }
      }
    }

    method Handle(name: string, msg: Msg)
      requires Valid() && scanned < MAX_REPLAY_MESSAGES
      modifies this`scanned, this`streamLastSeq, this`lastSeq, this`handled
      ensures Valid() && handled == old(handled) + [Tagged(name, msg)]
    {
      TallyNext(streamLastSeq, handled, Tagged(name, msg));
      HighestSnoc(handled, Tagged(name, msg), primary);
      scanned := scanned + 1;
      if msg.number.Some? {
        var number := msg.number.value;
        if name !in streamLastSeq || number > streamLastSeq[name] {
          streamLastSeq := streamLastSeq[name := number];
        }
        if name == primary && (lastSeq.None? || number > lastSeq.value) {
          lastSeq := Some(number);
        }
      }
      handled := handled + [Tagged(name, msg)];
    }

    /** One message, and the wait for its acknowledgement. */
    method HandleAndAck(name: string, msg: Msg)
      requires Valid() && scanned < MAX_REPLAY_MESSAGES
      modifies this`scanned, this`streamLastSeq, this`lastSeq, this`handled, this`waits
      ensures Valid() && handled == old(handled) + [Tagged(name, msg)]
    {
      Handle(name, msg);
      Wait();
    }

    method HandleAll(name: string, msgs: seq<Msg>)
      requires Valid() && scanned + |msgs| <= MAX_REPLAY_MESSAGES
      modifies this`scanned, this`streamLastSeq, this`lastSeq, this`handled, this`waits
      ensures Valid() && handled == old(handled) + Tag(name, msgs)
    {
      for k := 0 to |msgs|
        invariant Valid() && handled == old(handled) + Tag(name, msgs[..k])
      {
        TagSnoc(name, msgs, k);
        HandleAndAck(name, msgs[k]);
      }
      assert msgs[..|msgs|] == msgs;
    }

    /** Hands over as much of one batch as the cap leaves room for. */
    method HandleBatch(name: string, msgs: seq<Msg>)
      requires Valid() && scanned < MAX_REPLAY_MESSAGES
      modifies this`truncated, this`scanned, this`streamLastSeq, this`lastSeq, this`handled, this`waits
      ensures Valid()
      ensures handled == Capped(old(handled) + Tag(name, msgs))
      ensures truncated <==> old(truncated) || |old(handled)| + |msgs| > MAX_REPLAY_MESSAGES
    {
      CappedBatch(handled, name, msgs);
      var remaining := MAX_REPLAY_MESSAGES - scanned;
      var selected := if |msgs| <= remaining then msgs else msgs[..remaining];
      if |msgs| > remaining {
        truncated := true;
      }
      HandleAll(name, selected);
    }

    /** Handles one batch of a walk; reaching the cap counts as truncation even where the stream ends there. */
    method TakeBatch(s: Stream, i: nat)
      requires Valid() && scanned < MAX_REPLAY_MESSAGES && !truncated
      requires i < |s.fetches| && s.fetches[i].Batch?
      modifies this`truncated, this`scanned, this`streamLastSeq, this`lastSeq, this`handled, this`waits
      ensures Valid() && (truncated <==> scanned == MAX_REPLAY_MESSAGES)
      ensures if scanned == MAX_REPLAY_MESSAGES || |s.fetches[i].msgs| < REPLAY_FETCH_BATCH
              then handled == AfterWalk(old(handled), s, i)
              else AfterWalk(handled, s, i + 1) == AfterWalk(old(handled), s, i)
    {
      BatchThenRest(handled, s, i);
      HandleBatch(s.name, s.fetches[i].msgs);
      if scanned >= MAX_REPLAY_MESSAGES {
        truncated := true;
      }
    }

    method WalkStream(s: Stream) returns (failed: bool)
      requires Valid() && (truncated <==> scanned == MAX_REPLAY_MESSAGES)
      modifies this`truncated, this`scanned, this`streamLastSeq, this`lastSeq, this`handled, this`waits
      ensures Valid() && (truncated <==> scanned == MAX_REPLAY_MESSAGES)
      ensures handled == AfterWalk(old(handled), s, 0)
      ensures !truncated ==> failed == !EndsNaturally(s.fetches, 0)
    {
      var i := 0;
      while scanned < MAX_REPLAY_MESSAGES
        invariant Valid() && (truncated <==> scanned == MAX_REPLAY_MESSAGES)
        invariant i <= |s.fetches|
        invariant EndsNaturally(s.fetches, i) == EndsNaturally(s.fetches, 0)
        invariant AfterWalk(handled, s, i) == AfterWalk(old(handled), s, 0)
        decreases |s.fetches| - i
      {
        Wait();
        NothingMore(handled, s, i);
        if i == |s.fetches| || s.fetches[i].TimedOut? {
          return false;
        }
        if s.fetches[i].Broke? {
          return true;
        }
        var msgs := s.fetches[i].msgs;
        if msgs == [] {
          return false;
        }
        TakeBatch(s, i);
        if scanned >= MAX_REPLAY_MESSAGES || |msgs| < REPLAY_FETCH_BATCH {
          return false;
        }
        i := i + 1;
      }
      NothingMore(handled, s, i);
      failed := false;
    }

    /** Subscribes, walks and counts a failure of either. */
    method VisitStream(s: Stream)
      requires Valid() && (truncated <==> scanned == MAX_REPLAY_MESSAGES)
      modifies this
      ensures Valid() && (truncated <==> scanned == MAX_REPLAY_MESSAGES)
      ensures handled == Capped(old(handled) + Offered(s))
      ensures errors >= old(errors)
      ensures !truncated ==> (errors == old(errors) <==> s.subscribes && EndsNaturally(s.fetches, 0))
    {
      var failed := true;
      Wait();
      if s.subscribes {
        failed := WalkStream(s);
        Wait();
      } else {
        assert handled + [] == handled;
      }
      if failed {
        errors := errors + 1;
      }
    }

    method Walk(streams: seq<Stream>)
      requires Valid() && handled == [] && !truncated
      modifies this
      ensures Valid()
      ensures handled == Capped(AllOffered(streams))
      ensures truncated <==> |AllOffered(streams)| >= MAX_REPLAY_MESSAGES
      ensures errors >= old(errors)
      ensures !truncated ==>
                (errors == old(errors) <==> forall s <- streams :: s.subscribes && EndsNaturally(s.fetches, 0))
    {
      for i := 0 to |streams|
        invariant Valid() && (truncated <==> scanned == MAX_REPLAY_MESSAGES)
        invariant handled == Capped(AllOffered(streams[..i]))
        invariant errors >= old(errors)
        invariant !truncated ==>
                    (errors == old(errors) <==> forall s <- streams[..i] :: s.subscribes && EndsNaturally(s.fetches, 0))
      {
        assert streams[..i + 1][..i] == streams[..i];
        CappedTwice(AllOffered(streams[..i]), Offered(streams[i]));
        VisitStream(streams[i]);
        assert forall s :: s in streams[..i + 1] <==> s in streams[..i] || s == streams[i];
      }
      assert streams[..|streams|] == streams;
    }
  }

  lemma HighestSnoc(msgs: seq<Tagged>, last: Tagged, stream: string)
    ensures HighestOf(msgs + [last], stream)
         == if last.stream != stream then HighestOf(msgs, stream) else Higher(HighestOf(msgs, stream), last.msg.number)
  {
    assert (msgs + [last])[..|msgs|] == msgs;
  }

  lemma TallyNext(tally: map<string, int>, handled: seq<Tagged>, last: Tagged)
    requires Tallies(tally, handled)
    ensures Tallies(Raised(tally, last.stream, last.msg.number), handled + [last])
  {
    var after := Raised(tally, last.stream, last.msg.number);
    forall name
      ensures (if name in after then Some(after[name]) else None) == HighestOf(handled + [last], name)
    {
      HighestSnoc(handled, last, name);
    }
  }

  lemma TagSnoc(name: string, msgs: seq<Msg>, k: nat)
    requires k < |msgs|
    ensures Tag(name, msgs[..k + 1]) == Tag(name, msgs[..k]) + [Tagged(name, msgs[k])]
  {
  }

  lemma CappedBatch(handled: seq<Tagged>, name: string, msgs: seq<Msg>)
    requires |handled| <= MAX_REPLAY_MESSAGES
    ensures var room := MAX_REPLAY_MESSAGES - |handled|;
            Capped(handled + Tag(name, msgs)) == handled + Tag(name, if |msgs| <= room then msgs else msgs[..room])
  {
  }

  /** Where a walk ends there is nothing more to hand over. */
  lemma NothingMore(handled: seq<Tagged>, s: Stream, i: nat)
    requires i <= |s.fetches| && |handled| <= MAX_REPLAY_MESSAGES
    ensures |handled| == MAX_REPLAY_MESSAGES || i == |s.fetches| || !s.fetches[i].Batch? || s.fetches[i].msgs == [] ==>
              AfterWalk(handled, s, i) == handled
  {
    assert handled + Tag(s.name, []) == handled;
  }

  /** Handing over one batch, and what it leaves of the walk. */
  lemma BatchThenRest(handled: seq<Tagged>, s: Stream, i: nat)
    requires i < |s.fetches| && s.fetches[i].Batch? && |handled| <= MAX_REPLAY_MESSAGES
    ensures var next := Capped(handled + Tag(s.name, s.fetches[i].msgs));
            && (|next| == MAX_REPLAY_MESSAGES || |s.fetches[i].msgs| < REPLAY_FETCH_BATCH ==>
                  next == AfterWalk(handled, s, i))
            && (|s.fetches[i].msgs| >= REPLAY_FETCH_BATCH ==> AfterWalk(next, s, i + 1) == AfterWalk(handled, s, i))
  {
    var msgs, rest := s.fetches[i].msgs, Drain(s.fetches, i + 1);
    if |msgs| >= REPLAY_FETCH_BATCH {
      assert Tag(s.name, msgs + rest) == Tag(s.name, msgs) + Tag(s.name, rest);
      assert handled + (Tag(s.name, msgs) + Tag(s.name, rest)) == handled + Tag(s.name, msgs) + Tag(s.name, rest);
      CappedTwice(handled + Tag(s.name, msgs), Tag(s.name, rest));
    }
  }

  lemma CappedTwice(a: seq<Tagged>, b: seq<Tagged>)
    ensures Capped(Capped(a) + b) == Capped(a + b)
    ensures |Capped(a)| == MAX_REPLAY_MESSAGES ==> Capped(a + b) == Capped(a)
  {
  }

  // ---- what a walk reads, in terms of the fetches

  /** From the i-th fetch on, every fetch before the k-th was a full batch: the walk comes to the k-th. */
  ghost predicate Comes(fetches: seq<Fetch>, i: nat, k: nat) {
    i <= k <= |fetches| && forall j :: i <= j < k ==> fetches[j].Batch? && |fetches[j].msgs| >= 500
  }

  /** It goes no further than the k-th: there is none, or it is not a full batch. */
  ghost predicate Stops(fetches: seq<Fetch>, i: nat, k: nat) {
    Comes(fetches, i, k) && (k == |fetches| || !fetches[k].Batch? || |fetches[k].msgs| < 500)
  }

  /** A fetch that the walk comes to fails. */
  ghost predicate BreaksOff(fetches: seq<Fetch>) {
    exists k :: 0 <= k < |fetches| && Comes(fetches, 0, k) && fetches[k].Broke?
  }

  function Joined(batches: seq<Fetch>): seq<Msg>
    requires forall b <- batches :: b.Batch?
  {
    if batches == [] then [] else batches[0].msgs + Joined(batches[1..])
  }

  lemma {:induction false} WalkFrom(fetches: seq<Fetch>, i: nat, k: nat)
    requires Stops(fetches, i, k)
    ensures EndsNaturally(fetches, i) <==> k == |fetches| || !fetches[k].Broke?
    ensures Drain(fetches, i)
         == Joined(fetches[i..k]) + if k < |fetches| && fetches[k].Batch? then fetches[k].msgs else []
    decreases k - i
  {
    if i < k {
      WalkFrom(fetches, i + 1, k);
      assert fetches[i..k][1..] == fetches[i + 1..k];
    }
  }

  lemma {:induction false} SomewhereItStops(fetches: seq<Fetch>, i: nat) returns (k: nat)
    requires i <= |fetches|
    ensures Stops(fetches, i, k)
    decreases |fetches| - i
  {
    if i == |fetches| || !fetches[i].Batch? || |fetches[i].msgs| < 500 {
      k := i;
    } else {
      k := SomewhereItStops(fetches, i + 1);
    }
  }

  lemma StopsOnce(fetches: seq<Fetch>, k: nat, l: nat)
    requires Stops(fetches, 0, k) && Comes(fetches, 0, l)
    ensures l <= k
  {
  }

  /**
   A walk ends by itself exactly when no fetch it comes to fails; and it reads the full batches, in order, up to
   the first fetch that is none, and that one too if it is a batch at all.
   */
  lemma WalkMeaning(fetches: seq<Fetch>)
    ensures EndsNaturally(fetches, 0) <==> !BreaksOff(fetches)
    ensures forall k: nat :: Stops(fetches, 0, k) ==>
              Drain(fetches, 0)
              == Joined(fetches[..k]) + if k < |fetches| && fetches[k].Batch? then fetches[k].msgs else []
  {
    var k := SomewhereItStops(fetches, 0);
    WalkFrom(fetches, 0, k);
    forall l | Comes(fetches, 0, l) ensures l <= k {
      StopsOnce(fetches, k, l);
    }
    forall l | Stops(fetches, 0, l) ensures l == k {
      StopsOnce(fetches, l, k);
    }
    assert fetches[0..k] == fetches[..k];
  }

  lemma OneMoreStream(streams: seq<Stream>, s: Stream)
    ensures AllOffered(streams + [s]) == AllOffered(streams) + Offered(s)
  {
    assert (streams + [s])[..|streams|] == streams;
  }

  lemma Associates<T>(a: seq<T>, b: seq<T>, c: seq<T>)
    ensures (a + b) + c == a + (b + c)
  {
  }

  /** The streams are read one after the other, and one that cannot be subscribed to is not read. */
  lemma {:induction false} StreamsInOrder(a: seq<Stream>, b: seq<Stream>)
    ensures AllOffered(a + b) == AllOffered(a) + AllOffered(b)
  {
    if b == [] {
      assert a + b == a;
      assert AllOffered(a) + [] == AllOffered(a);
    } else {
      var front, last := b[..|b| - 1], b[|b| - 1];
      assert a + b == a + front + [last] && b == front + [last];
      OneMoreStream(a + front, last);
      OneMoreStream(front, last);
      StreamsInOrder(a, front);
      Associates(AllOffered(a), AllOffered(front), Offered(last));
    }
  }

  lemma OneStream(s: Stream)
    ensures AllOffered([s]) == if s.subscribes then Tag(s.name, Drain(s.fetches, 0)) else []
  {
    var none: seq<Stream> := [];
    assert [s][..0] == none && AllOffered(none) == [];
    assert [] + Offered(s) == Offered(s);
  }

  /** Number n was read from one of the stream's messages. */
  ghost predicate Read(msgs: seq<Tagged>, stream: string, n: int) {
    exists m <- msgs :: m.stream == stream && m.msg.number == Some(n)
  }

  /** What a highest sequence number means: one that was read, and none above it was. */
  lemma {:induction false} HighestIsMaximum(msgs: seq<Tagged>, stream: string)
    ensures HighestOf(msgs, stream).None? <==> forall n :: !Read(msgs, stream, n)
    ensures HighestOf(msgs, stream).Some? ==>
              var top := HighestOf(msgs, stream).value;
              Read(msgs, stream, top) && forall n :: Read(msgs, stream, n) ==> n <= top
  {
    if msgs != [] {
      var front, last := msgs[..|msgs| - 1], msgs[|msgs| - 1];
      HighestIsMaximum(front, stream);
      forall n
        ensures Read(msgs, stream, n) <==>
                  Read(front, stream, n) || (last.stream == stream && last.msg.number == Some(n))
      {
        if Read(front, stream, n) {
          var m :| m in front && m.stream == stream && m.msg.number == Some(n);
          assert m in msgs;
        }
        if last.stream == stream && last.msg.number == Some(n) {
          assert last in msgs;
        }
      }
      if HighestOf(front, stream).Some? {
        assert Read(front, stream, HighestOf(front, stream).value);
      }
      if last.msg.number.Some? && last.stream == stream {
        assert Read(msgs, stream, last.msg.number.value);
      }
    }
  }

  /** A send completed during the first waits was acknowledged with number n. */
  ghost predicate Sent(sends: Sends, waits: nat, n: int) {
    exists i: nat :: i < waits && sends(i) == Some(n)
  }

  lemma {:induction false} HighestSentIsMaximum(sends: Sends, waits: nat)
    ensures HighestSent(sends, waits).None? <==> forall n :: !Sent(sends, waits, n)
    ensures HighestSent(sends, waits).Some? ==>
              var top := HighestSent(sends, waits).value;
              Sent(sends, waits, top) && forall n :: Sent(sends, waits, n) ==> n <= top
  {
    if waits > 0 {
      HighestSentIsMaximum(sends, waits - 1);
      assert forall n :: Sent(sends, waits, n) <==> Sent(sends, waits - 1, n) || sends(waits - 1) == Some(n);
    }
  }

  /** The number was known before, read of the stream, or acknowledged to a send meanwhile. */
  ghost predicate Seen(before: Option<int>, handled: seq<Tagged>, stream: string, sends: Sends, waits: nat, n: int) {
    before == Some(n) || Read(handled, stream, n) || Sent(sends, waits, n)
  }

  /** The highest of all numbers seen, if any was. */
  ghost predicate HighestSeen(top: Option<int>, before: Option<int>, handled: seq<Tagged>, stream: string,
                              sends: Sends, waits: nat)
  {
    && (top.Some? ==> Seen(before, handled, stream, sends, waits, top.value))
    && (forall n :: Seen(before, handled, stream, sends, waits, n) ==> top.Some? && n <= top.value)
  }

  lemma NeitherOverwritesTheOther(before: Option<int>, handled: seq<Tagged>, stream: string, sends: Sends, waits: nat)
    ensures HighestSeen(Higher(Higher(before, HighestOf(handled, stream)), HighestSent(sends, waits)), before,
                        handled, stream, sends, waits)
  {
    HighestIsMaximum(handled, stream);
    HighestSentIsMaximum(sends, waits);
  }

  /**
   The report tells the truth: `complete` is claimed exactly when no lookup failed, every subscription
   succeeded, no fetch that a walk came to failed, and the streams held fewer than 5000 messages; and then
   every one of them was handled, once and in order.  The last sequence number ends at the highest of what
   was read of the primary stream and what sends were acknowledged meanwhile: neither overwrites the other.
   */
  method Replay(primary: string, lastSeq: Option<int>, agents: seq<Agent>, streams: seq<Stream>, sends: Sends)
    returns (complete: bool, scanned: nat, newLastSeq: Option<int>, streamLastSeq: map<string, int>,
             ghost handled: seq<Tagged>, ghost waits: nat)
    ensures handled <= AllOffered(streams) && scanned == |handled|
    ensures scanned == if |AllOffered(streams)| < 5000 then |AllOffered(streams)| else 5000
    ensures complete <==>
              && (forall agent <- agents :: agent.active && agent.subject != "" ==> !agent.lookup.LookupBroke?)
              && (forall s <- streams :: s.subscribes && !BreaksOff(s.fetches))
              && |AllOffered(streams)| < 5000
    ensures complete ==> handled == AllOffered(streams)
    ensures HighestSeen(newLastSeq, lastSeq, handled, primary, sends, waits)
    ensures forall name ::
              (if name in streamLastSeq then Some(streamLastSeq[name]) else None) == HighestOf(handled, name)
  {
    var replayer := new Replayer(primary, lastSeq, sends);
    replayer.FirstPass(agents);
    replayer.Walk(streams);
    complete := replayer.errors == 0 && !replayer.truncated;
    scanned, newLastSeq, streamLastSeq := replayer.scanned, replayer.lastSeq, replayer.streamLastSeq;
    handled, waits := replayer.handled, replayer.waits;
    forall s: Stream { WalkMeaning(s.fetches); }
    NeitherOverwritesTheOther(lastSeq, handled, primary, sends, waits);
  }
}
