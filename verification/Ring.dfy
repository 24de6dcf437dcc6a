/**
 The values behind the event bus: the bounded ring of recent events, the bounded queue of one
 subscriber, and the unbounded log they are both judged against.
 */
module Ring {
  import opened Wrappers
  import EventIds

  /** What travels on the bus: an event, or the frame that replaces an overflowing backlog. */
  datatype Frame =
    | Published(epoch: string, n: nat, event: string, data: string)
    | OverflowReset(epoch: string, n: nat)
  {
    function Id(): string {
      EventIds.Format(epoch, n)
    }
  }

  datatype Ring = Ring(epoch: string, capacity: nat, n: nat, events: seq<Frame>)

  /** `deque(maxlen=capacity).append`. */
  function AppendBounded(events: seq<Frame>, capacity: nat, frame: Frame): seq<Frame>
    requires capacity > 0
  {
    var longer := events + [frame];
    if |longer| > capacity then longer[1..] else longer
  }

  function NextFrame(r: Ring, event: string, data: string): Frame {
    Published(r.epoch, r.n + 1, event, data)
  }

  function Publish(r: Ring, event: string, data: string): Ring
    requires r.capacity > 0
  {
    r.(n := r.n + 1, events := AppendBounded(r.events, r.capacity, NextFrame(r, event, data)))
  }

  /** What one publish does to one subscriber queue. */
  function Offer(queue: seq<Frame>, capacity: nat, frame: Frame): seq<Frame> {
    if |queue| < capacity then queue + [frame] else [OverflowReset(frame.epoch, frame.n)]
  }

  datatype Replay = Replay(backlog: seq<Frame>, needsReset: bool)

  function After(events: seq<Frame>, n: nat): seq<Frame> {
    if events == [] then []
    else (if events[0].n > n then [events[0]] else []) + After(events[1..], n)
  }

  function SinceNumber(r: Ring, n: nat): Replay {
    if n > r.n then Replay([], true)
    else if r.events == [] then Replay([], false)
    else if n < r.events[0].n - 1 then Replay([], true)
    else Replay(After(r.events, n), false)
  }

  /** A `Last-Event-ID` header, read. */
  datatype Resume = Absent | Malformed | At(epoch: string, n: nat)

  function ReadResume(header: Option<string>, lenient: EventIds.Lenient): Resume {
    if header.None? || header.value == "" then Absent
    else match EventIds.Parse(header.value, lenient)
      case None => Malformed
      case Some((epoch, n)) => At(epoch, n)
  }

  function Since(r: Ring, resume: Resume): Replay {
    match resume
    case Absent => Replay([], false)
    case Malformed => Replay([], true)
    case At(epoch, n) => if epoch != r.epoch then Replay([], true) else SinceNumber(r, n)
  }

  /** The live filter, on an envelope's id as text. */
  predicate IdAfterCutoff(id: string, epoch: string, cutoff: nat, lenient: EventIds.Lenient) {
    match EventIds.Parse(id, lenient)
    case None => false
    case Some((idEpoch, n)) => idEpoch == epoch && n > cutoff
  }

  predicate AfterCutoff(frame: Frame, epoch: string, cutoff: nat) {
    frame.epoch == epoch && frame.n > cutoff
  }

  /** Nothing is lost by going through the id text: the filter sees the frame's own epoch and number. */
  lemma IdTextIsFaithful(frame: Frame, epoch: string, cutoff: nat, lenient: EventIds.Lenient)
    ensures IdAfterCutoff(frame.Id(), epoch, cutoff, lenient) == AfterCutoff(frame, epoch, cutoff)
    ensures ReadResume(Some(frame.Id()), lenient) == At(frame.epoch, frame.n)
  {
    EventIds.FormatParses(frame.epoch, frame.n, lenient);
    assert frame.Id()[|frame.epoch|] == '-';
  }

  /**
   What a header says: nothing when there is none or it is empty; of an epoch and a number when what follows its
   last dash is one; and else it is malformed, as it is without any dash.
   */
  lemma HeaderMeaning(head: string, tail: string, lenient: EventIds.Lenient)
    requires '-' !in tail
    ensures ReadResume(None, lenient) == Absent && ReadResume(Some(""), lenient) == Absent
    ensures tail != "" ==> ReadResume(Some(tail), lenient) == Malformed
    ensures ReadResume(Some(head + "-" + tail), lenient) ==
              if tail != "" && EventIds.AllDigits(tail) then At(head, EventIds.DigitsValue(tail))
              else match lenient(tail) case None => Malformed case Some(n) => At(head, n)
  {
    EventIds.RSplitWithoutDash(tail);
    EventIds.RSplitAtLastDash(head, tail);
  }

  /** The ring is the tail of the log of everything ever published. */
  ghost predicate Represents(r: Ring, log: seq<Frame>) {
    && r.capacity > 0
    && |log| == r.n
    && IsLog(r.epoch, log)
    && r.events == log[Floor(r)..]
  }

  /** How many of the oldest events the ring has forgotten. */
  function Floor(r: Ring): nat {
    if r.n > r.capacity then r.n - r.capacity else 0
  }

  ghost predicate IsLog(epoch: string, log: seq<Frame>) {
    forall i :: 0 <= i < |log| ==> log[i].Published? && log[i].epoch == epoch && log[i].n == i + 1
  }

  lemma PublishRepresents(r: Ring, log: seq<Frame>, event: string, data: string)
    requires Represents(r, log)
    ensures Represents(Publish(r, event, data), log + [NextFrame(r, event, data)])
  {
    var frame := NextFrame(r, event, data);
    assert r.events + [frame] == (log + [frame])[Floor(r)..];
  }

  lemma {:induction false} AfterLog(epoch: string, log: seq<Frame>, from: nat, n: nat)
    requires IsLog(epoch, log) && from <= |log| && n <= |log|
    ensures After(log[from..], n) == log[if n > from then n else from..]
    decreases |log| - from
  {
    if from < |log| {
      assert log[from..][1..] == log[from + 1..];
      AfterLog(epoch, log, from + 1, n);
    }
  }

  /**
   The ring answers as the full log would, exactly while the log's answer still fits: for an id of
   this epoch that is not from the future, a reset is demanded exactly when more than `capacity`
   events were published after it, and otherwise the answer is those events.
   */
  lemma SinceRefinesLog(r: Ring, log: seq<Frame>, n: nat)
    requires Represents(r, log) && n <= r.n
    ensures SinceNumber(r, n).needsReset <==> r.n - n > r.capacity
    ensures !SinceNumber(r, n).needsReset ==> SinceNumber(r, n).backlog == log[n..]
    ensures SinceNumber(r, n).needsReset ==> SinceNumber(r, n).backlog == []
  {
    if r.events != [] {
      assert r.events[0] == log[Floor(r)];
      AfterLog(r.epoch, log, Floor(r), n);
    }
  }

  /** The answer to any header at all. */
  lemma SinceAnswers(r: Ring, log: seq<Frame>, resume: Resume)
    requires Represents(r, log)
    ensures var replay := Since(r, resume);
            && (replay.needsReset <==>
                  resume.Malformed?
                  || (resume.At? && (resume.epoch != r.epoch || resume.n > r.n || r.n - resume.n > r.capacity)))
            && replay.backlog == if replay.needsReset || resume.Absent? then [] else log[resume.n..]
  {
    if resume.At? && resume.n <= r.n {
      SinceRefinesLog(r, log, resume.n);
    }
  }
}
