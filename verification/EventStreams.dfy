/**
 One event stream as the server runs it: an object holding its queue, its cutoff and what it has
 sent, over a bus it shares with the others.  Each method is proved to take exactly the matching step
 of the interleaving model, so the theorems about every interleaving speak about these objects.
 */
module EventStreams {
  import opened Wrappers
  import opened R = Ring
  import opened B = EventBuses
  import opened SseResume
  import EventIds

  class EventStream {
    const queue: Queue
    const cutoffEpoch: string
    const cutoff: nat
    const resume: Resume
    var phase: Phase
    var out: seq<Out>
    var wasReset: bool

    ghost function View(): Connection
      reads this, queue
    {
      Connection(queue.items, cutoffEpoch, cutoff, resume, phase, out, wasReset)
    }

    constructor (queue: Queue, epoch: string, n: nat, resume: Resume)
      ensures this.queue == queue
      ensures View() == Connection(queue.items, epoch, n, resume, Attached, [], false)
    {
      this.queue, cutoffEpoch, cutoff, this.resume := queue, epoch, n, resume;
      phase, out, wasReset := Attached, [], false;
    }

    method Advance(bus: EventBus)
      requires bus.Valid()
      modifies this, queue
      ensures View() == AdvanceStream(bus.View(), old(View()))
    {
      match phase
      case Attached =>
        out, phase := out + [Hello(bus.epoch, bus.n)], Greeted;
      case Greeted =>
        var replay := R.Since(R.Ring(bus.epoch, bus.capacity, bus.n, bus.ring), resume);
        if replay.needsReset {
          phase, wasReset := Resetting, true;
        } else {
          phase := Replaying(UpToCutoff(replay.backlog, cutoffEpoch, cutoff));
        }
      case Resetting =>
        out, phase := out + [ResumeReset], ResettingCompat;
      case ResettingCompat =>
        out, phase := out + [CompatReset], Live;
      case Replaying(pending) =>
        if pending == [] {
          phase := Live;
        } else {
          out, phase := out + [Sent(pending[0])], Replaying(pending[1..]);
        }
      case Live =>
        var frame := queue.GetNowait();
        if frame.Some? && AfterCutoff(frame.value, cutoffEpoch, cutoff) {
          out := out + [Sent(frame.value)];
        }
    }

    /** Attach and cutoff read, in one step; None is the refusal of a full bus. */
    static method Open(bus: EventBus, header: Option<string>, lenient: EventIds.Lenient)
      returns (stream: Option<EventStream>)
      requires bus.Valid()
      modifies bus`queues
      ensures bus.Valid()
      ensures stream.None? <==> |old(bus.queues)| >= bus.maxClients
      ensures stream.Some? ==>
                && fresh(stream.value) && fresh(stream.value.queue)
                && bus.queues == old(bus.queues) + [stream.value.queue]
                && stream.value.View() == Opened(bus.View(), ReadResume(header, lenient))
    {
      var queue := bus.Attach();
      if queue.None? {
        return None;
      }
      var attached := new EventStream(queue.value, bus.epoch, bus.n, ReadResume(header, lenient));
      return Some(attached);
    }

    /** A publish reaches an attached stream as the model's `Receive`. */
    method PublishWhileAttached(bus: EventBus, event: string, data: string)
      requires bus.Valid() && queue in bus.queues
      modifies bus, bus.queues
      ensures bus.Valid() && queue in bus.queues
      ensures bus.View() == R.Publish(old(bus.View()), event, data)
      ensures View() == Receive(old(View()), bus.capacity, NextFrame(old(bus.View()), event, data))
    {
      var _ := bus.Publish(event, data);
    }

    method Close(bus: EventBus)
      requires bus.Valid()
      modifies bus`queues
      ensures bus.Valid() && queue !in bus.queues
      ensures forall other: Queue :: other in old(bus.queues) && other != queue <==> other in bus.queues
    {
      bus.Detach(queue);
    }
  }
}
