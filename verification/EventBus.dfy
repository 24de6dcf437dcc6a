/** The event bus as the hub runs it: one object, updated in place, feeding every subscriber queue. */
module EventBuses {
  import opened Wrappers
  import opened R = Ring
  import EventIds

  /** `asyncio.Queue(maxsize)`: the non-blocking operations the bus uses. */
  class Queue {
    const maxsize: nat
    var items: seq<Frame>

    constructor (maxsize: nat)
      ensures this.maxsize == maxsize && items == []
    {
      this.maxsize := maxsize;
      items := [];
    }

    method PutNowait(frame: Frame) returns (full: bool)
      modifies this
      ensures full == (|old(items)| >= maxsize)
      ensures items == if full then old(items) else old(items) + [frame]
    {
      full := |items| >= maxsize;
      if !full {
        items := items + [frame];
      }
    }

    method GetNowait() returns (frame: Option<Frame>)
      modifies this
      ensures frame == if old(items) == [] then None else Some(old(items)[0])
      ensures items == if old(items) == [] then [] else old(items)[1..]
    {
      if items == [] {
        return None;
      }
      frame := Some(items[0]);
      items := items[1..];
    }

    /** The body of the publish loop: an overflowing backlog collapses to one explicit reset. */
    method Deliver(envelope: Frame)
      requires maxsize > 0
      modifies this
      ensures items == if |old(items)| < maxsize then old(items) + [envelope]
                       else [OverflowReset(envelope.epoch, envelope.n)]
    {
      var full := PutNowait(envelope);
      if full {
        while items != []
          decreases |items|
        {
          var _ := GetNowait();
        }
        var _ := PutNowait(OverflowReset(envelope.epoch, envelope.n));
      }
    }
  }

  class EventBus {
    const epoch: string
    const capacity: nat
    const maxClients: nat
    var n: nat
    var ring: seq<Frame>
    var queues: seq<Queue>
    /** Everything ever published; only the proofs look at it. */
    ghost var log: seq<Frame>

    ghost function View(): Ring
      reads this
    {
      R.Ring(epoch, capacity, n, ring)
    }

    ghost predicate Valid()
      reads this, queues
    {
      && Represents(View(), log)
      && |queues| <= maxClients
      && (forall i, j :: 0 <= i < j < |queues| ==> queues[i] != queues[j])
      && (forall q <- queues :: q.maxsize == capacity && |q.items| <= capacity)
    }

    constructor (epoch: string, capacity: nat, maxClients: nat)
      requires capacity >= 1 && maxClients >= 1
      ensures Valid() && log == [] && queues == []
      ensures View() == R.Ring(epoch, capacity, 0, []) && this.maxClients == maxClients
    {
      this.epoch, this.capacity, this.maxClients := epoch, capacity, maxClients;
      n, ring, queues, log := 0, [], [], [];
    }

    /** The part of a publish that numbers the event and appends it to the ring. */
    method Record(event: string, data: string) returns (envelope: Frame)
      requires Represents(View(), log)
      modifies this`n, this`ring, this`log
      ensures envelope == NextFrame(old(View()), event, data)
      ensures View() == R.Publish(old(View()), event, data)
      ensures log == old(log) + [envelope] && Represents(View(), log)
    {
      PublishRepresents(View(), log, event, data);
      n := n + 1;
      envelope := Published(epoch, n, event, data);
      ring := AppendBounded(ring, capacity, envelope);
      log := log + [envelope];
    }

    method Publish(event: string, data: string) returns (envelope: Frame)
      requires Valid()
      modifies this, queues
      ensures Valid()
      ensures envelope == Published(epoch, old(n) + 1, event, data) && n == old(n) + 1
      ensures View() == R.Publish(old(View()), event, data)
      ensures log == old(log) + [envelope]
      ensures queues == old(queues)
      ensures forall q <- queues :: q.items == Offer(old(q.items), capacity, envelope)
    {
      envelope := Record(event, data);
      for i := 0 to |queues|
        modifies queues
        invariant forall j :: 0 <= j < i ==>
                    queues[j].items == Offer(old(queues[j].items), capacity, envelope)
        invariant forall j :: i <= j < |queues| ==> queues[j].items == old(queues[j].items)
      {
        queues[i].Deliver(envelope);
      }
    }

    method Since(lastEventId: Option<string>, lenient: EventIds.Lenient) returns (replay: Replay)
      requires Valid()
      ensures var resume := ReadResume(lastEventId, lenient);
              && (replay.needsReset <==>
                    resume.Malformed?
                    || (resume.At? && (resume.epoch != epoch || resume.n > n || n - resume.n > capacity)))
              && replay.backlog == (if replay.needsReset || resume.Absent? then [] else log[resume.n..])
    {
      SinceAnswers(View(), log, ReadResume(lastEventId, lenient));
      replay := R.Since(R.Ring(epoch, capacity, n, ring), ReadResume(lastEventId, lenient));
    }

    /** None is `TooManySubscribers`. */
    method Attach() returns (queue: Option<Queue>)
      requires Valid()
      modifies this`queues
      ensures Valid()
      ensures queue.None? <==> |old(queues)| >= maxClients
      ensures queue.None? ==> queues == old(queues)
      ensures queue.Some? ==> fresh(queue.value) && queue.value.items == []
                              && queues == old(queues) + [queue.value]
    {
      if |queues| >= maxClients {
        return None;
      }
      var q := new Queue(capacity);
      queues := queues + [q];
      return Some(q);
    }

    method Detach(q: Queue)
      requires Valid()
      modifies this`queues
      ensures Valid()
      ensures q !in queues
      ensures forall p: Queue :: p in old(queues) && p != q <==> p in queues
      ensures |queues| == if q in old(queues) then |old(queues)| - 1 else |old(queues)|
    {
      for i := 0 to |queues|
        invariant queues == old(queues)
        invariant forall j :: 0 <= j < i ==> queues[j] != q
      {
        if queues[i] == q {
          queues := queues[..i] + queues[i + 1..];
          return;
        }
      }
    }
  }
}
