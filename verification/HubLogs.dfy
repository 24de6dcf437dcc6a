/**
 The hub's logs as inbound frames and sends update them: what each step changes, and what it leaves
 alone.  Each await-free section of a send, and each returning frame, is proved to take exactly the
 matching step of the interleaving model, so its theorems speak about this object.
 */
module HubLogs {
  import opened Wrappers
  import opened Echo
  import S = SentIds
  import Replays

  const RAW_LIMIT: nat := 400
  const CHAT_LIMIT: nat := 300
  const DM_LIMIT: nat := 200

  const MAX_RAW_PREVIEW_CHARS: nat := 160

  datatype RawEntry = RawEntry(
    number: nat, subject: string, preview: string, at: real, quarantine: Option<string>, size: nat)

  /** What the hub hands to its event bus. */
  datatype Notice = RawNotice(entry: RawEntry) | ChatNotice(chat: Message) | DmNotice(uid: string, dm: Message)

  function ProjectionNotice(m: Message, uid: Option<string>): Notice {
    if uid.None? then ChatNotice(m) else DmNotice(uid.value, m)
  }

  /** `deque(maxlen=limit).append`. */
  function Keep<T>(entries: seq<T>, entry: T, limit: nat): (kept: seq<T>)
    ensures |kept| <= limit
    ensures limit > 0 ==> kept != [] && kept[|kept| - 1] == entry
  {
    var longer := entries + [entry];
    if |longer| > limit then longer[|longer| - limit..] else longer
  }

  /** An unsafe subject is shown with everything but visible ASCII masked. */
  function Preview(subject: string): (shown: string)
    ensures |shown| <= MAX_SUBJECT_CHARS
    ensures forall i :: 0 <= i < |shown| ==> '!' <= shown[i] <= '~'
  {
    var n := if |subject| <= MAX_SUBJECT_CHARS then |subject| else MAX_SUBJECT_CHARS;
    seq(n, i requires 0 <= i < n => if '!' <= subject[i] <= '~' then subject[i] else '?')
  }

  function Shortened(text: string): (shown: string)
    ensures |shown| <= MAX_RAW_PREVIEW_CHARS
  {
    if |text| <= MAX_RAW_PREVIEW_CHARS then text else text[..MAX_RAW_PREVIEW_CHARS]
  }

  /** The public entry for a frame; of a quarantined one neither an unsafe subject nor the payload is shown. */
  function RawFor(cfg: Config, d: Disposition, number: nat, m: Message, now: real): RawEntry {
    match d
    case Quarantined(reason) =>
      RawEntry(number, if SafeSubject(m.subject) then m.subject else Preview(m.subject),
               Shortened("[quarantined:" + reason + "]"), now, Some(reason), |m.data|)
    case _ =>
      RawEntry(number, m.subject, Shortened(cfg.shownAs(m.data).GetOr("[non-json payload omitted]")), now, None,
               |m.data|)
  }

  /** What an entry shows, and what it keeps back. */
  lemma RawForMeaning(cfg: Config, d: Disposition, number: nat, m: Message, other: Message, now: real)
    requires other.subject == m.subject && |other.data| == |m.data|
    ensures var entry := RawFor(cfg, d, number, m, now);
            && entry.number == number && entry.at == now && entry.size == |m.data| && |entry.preview| <= 160
            && entry.quarantine == (if d.Quarantined? then Some(d.reason) else None)
            && (SafeSubject(m.subject) || !d.Quarantined? ==> entry.subject == m.subject)
            && (d.Quarantined? ==> entry == RawFor(cfg, d, number, other, now))
            && (!d.Quarantined? ==>
                  entry.preview <= cfg.shownAs(m.data).GetOr("[non-json payload omitted]")
                  && (|entry.preview| < 160 ==>
                        entry.preview == cfg.shownAs(m.data).GetOr("[non-json payload omitted]")))
  {
  }

  /** What `deque(maxlen=limit)` holds after those appends. */
  function KeptAll<T>(entries: seq<T>, limit: nat): (kept: seq<T>) {
    if entries == [] then [] else Keep(KeptAll(entries[..|entries| - 1], limit), entries[|entries| - 1], limit)
  }

  lemma KeepNext<T>(entries: seq<T>, entry: T, limit: nat)
    ensures var kept := if |entries| <= limit then entries else entries[|entries| - limit..];
            var longer := entries + [entry];
            Keep(kept, entry, limit) == if |longer| <= limit then longer else longer[|longer| - limit..]
  {
  }

  /** A bounded log holds the newest entries, up to its bound, in the order they were appended. */
  lemma {:induction false} KeptAreTheNewest<T>(entries: seq<T>, limit: nat)
    ensures KeptAll(entries, limit) == if |entries| <= limit then entries else entries[|entries| - limit..]
  {
    if entries != [] {
      var n := |entries| - 1;
      KeptAreTheNewest(entries[..n], limit);
      KeepNext(entries[..n], entries[n], limit);
      assert entries[..n] + [entries[n]] == entries;
    }
  }

  /** Where a frame goes, for every agent at once. */
  lemma DestinationMeaning(cfg: Config, sent: seq<string>, m: Message)
    ensures var d := Receive(cfg, sent, m);
            && (d == Suppressed <==> Receivable(cfg, m) && EchoKey(cfg, m) in sent)
            && (d == ToChat <==> ForChat(cfg, m) && EchoKey(cfg, m) !in sent)
            && (Lands(d) <==> Conversational(cfg, m) && EchoKey(cfg, m) !in sent)
            && (forall uid :: d == ToDm(uid) <==> ForAgent(cfg, m, uid) && EchoKey(cfg, m) !in sent)
  {
    forall uid { ReceiveMeaning(cfg, sent, m, uid); }
  }

  class HubState {
    const sent: S.SentIds
    var messages: nat
    var raw: seq<RawEntry>
    var chat: seq<Message>
    var dms: map<string, seq<Message>>
    var lastSeq: Option<int>
    var notices: seq<Notice>
    /** Everything ever appended to the chat or a direct-message log; only the proofs look at it. */
    ghost var projected: seq<Message>

    constructor (cap: nat)
      ensures fresh(sent) && sent.cap == cap && sent.ids == [] && messages == 0 && raw == []
      ensures chat == [] && dms == map[] && lastSeq == None && notices == [] && projected == []
    {
      sent := new S.SentIds(cap);
      messages, raw, chat, dms, lastSeq, notices, projected := 0, [], [], map[], None, [], [];
    }

    ghost predicate Valid()
      reads this
    {
      && |raw| <= RAW_LIMIT && |chat| <= CHAT_LIMIT
      && (forall uid <- dms :: |dms[uid]| <= DM_LIMIT)
      && |raw| <= messages
      && forall i :: 0 <= i < |raw| ==> raw[i].number == messages - |raw| + 1 + i
    }

    method RecordRaw(cfg: Config, d: Disposition, m: Message, now: real, live: bool)
      requires Valid()
      modifies this`messages, this`raw, this`notices
      ensures Valid()
      ensures messages == old(messages) + 1
      ensures raw == Keep(old(raw), RawFor(cfg, d, messages, m, now), RAW_LIMIT)
      ensures notices == old(notices) + if live then [RawNotice(RawFor(cfg, d, messages, m, now))] else []
    {
      messages := messages + 1;
      var entry := RawFor(cfg, d, messages, m, now);
      raw := Keep(raw, entry, RAW_LIMIT);
      if live {
        notices := notices + [RawNotice(entry)];
      }
    }

    /**
     A known echo leaves logs and notices alone.  Any other frame enters the raw feed; an addressed one that
     carries text also enters the chat, or one agent's log; and what enters is announced while live.
     */
    method HandleMsg(cfg: Config, m: Message, now: real, live: bool) returns (d: Disposition)
      requires Valid()
      modifies this
      ensures Valid()
      ensures d == Receive(cfg, sent.ids, m)
      ensures lastSeq == old(lastSeq) && projected == old(projected) + if Lands(d) then [m] else []
      ensures var known := EchoKey(cfg, m) in sent.ids;
              if Receivable(cfg, m) && known then
                messages == old(messages) && raw == old(raw) && notices == old(notices)
                && chat == old(chat) && dms == old(dms)
              else
                var entry := RawFor(cfg, d, messages, m, now);
                && messages == old(messages) + 1 && raw == Keep(old(raw), entry, RAW_LIMIT)
                && chat == (if ForChat(cfg, m) then Keep(old(chat), m, CHAT_LIMIT) else old(chat))
                && (forall uid :: ForAgent(cfg, m, uid) ==>
                      dms == old(dms)[uid := Keep(if uid in old(dms) then old(dms)[uid] else [], m, DM_LIMIT)])
                && (ForChat(cfg, m) || !Conversational(cfg, m) ==> dms == old(dms))
                && (!live ==> notices == old(notices))
                && (live && !Conversational(cfg, m) ==> notices == old(notices) + [RawNotice(entry)])
                && (live && ForChat(cfg, m) ==> notices == old(notices) + [RawNotice(entry), ChatNotice(m)])
                && (forall uid :: live && ForAgent(cfg, m, uid) ==>
                      notices == old(notices) + [RawNotice(entry), DmNotice(uid, m)])
    {
      d := Receive(cfg, sent.ids, m);
      DestinationMeaning(cfg, sent.ids, m);
      if d.Suppressed? {
        return;
      }
      RecordRaw(cfg, d, m, now, live);
      if Lands(d) {
        Project(m, if d.ToDm? then Some(d.uid) else None, live);
      }
    }

    /** The chat log takes what is addressed to everyone, the named agent's own log the rest. */
    method Project(m: Message, uid: Option<string>, announce: bool)
      requires Valid()
      modifies this`chat, this`dms, this`projected, this`notices
      ensures Valid()
      ensures chat == if uid.None? then Keep(old(chat), m, CHAT_LIMIT) else old(chat)
      ensures dms == if uid.None? then old(dms) else WithDm(old(dms), uid.value, m)
      ensures notices == old(notices) + if announce then [ProjectionNotice(m, uid)] else []
      ensures projected == old(projected) + [m]
    {
      if uid.None? {
        chat := Keep(chat, m, CHAT_LIMIT);
      } else {
        var log := if uid.value in dms then dms[uid.value] else [];
        dms := dms[uid.value := Keep(log, m, DM_LIMIT)];
      }
      projected := projected + [m];
      if announce {
        notices := notices + [ProjectionNotice(m, uid)];
      }
    }

    // ---- this object as the interleaving model's system

    /** The sent set is the model's, and each attempt's frame was projected as often as the model's log says. */
    ghost predicate Tracks(cfg: Config, s: System)
      reads this, sent
    {
      && sent.cap == cfg.cap && sent.ids == Sent(cfg, s)
      && CountsAgree(s, projected)
    }

    /** The last section before the first await: the key is on record before the frame can come back. */
    method BeginSend(cfg: Config, m: Message, requireJetstream: bool, ghost s: System)
      requires Tracks(cfg, s) && Invariant(cfg, s) && KeyIsNew(cfg, s, m) && m !in projected
      modifies sent
      ensures Tracks(cfg, Step(cfg, s, Begin(m, requireJetstream)))
    {
      BeginKeepsCounts(cfg, s, m, requireJetstream, projected);
      sent.Add(EchoKey(cfg, m));
    }

    /** After the broker accepted: the sequence number is raised and, unless a duplicate, the send is projected. */
    method CompleteSend(cfg: Config, m: Message, uid: Option<string>, duplicate: bool, seqNo: Option<int>,
                        ghost s: System, ghost a: nat, ghost step: Action)
      requires Valid() && Tracks(cfg, s) && Invariant(cfg, s) && a < |s.attempts| && s.attempts[a].message == m
      requires step == PubAck(a, duplicate) || (step == CoreAccepts(a) && !duplicate && seqNo.None?)
      requires Enabled(cfg, s, step)
      modifies this
      ensures Valid() && Tracks(cfg, Step(cfg, s, step))
      ensures lastSeq == if duplicate then old(lastSeq) else Replays.Higher(old(lastSeq), seqNo)
      ensures chat == if duplicate || uid.Some? then old(chat) else Keep(old(chat), m, CHAT_LIMIT)
      ensures dms == if duplicate || uid.None? then old(dms) else WithDm(old(dms), uid.value, m)
      ensures notices == old(notices) + if duplicate then [] else [ProjectionNotice(m, uid)]
      ensures messages == old(messages) && raw == old(raw)
    {
      CompleteKeepsCounts(cfg, s, a, step, projected);
      if !duplicate {
        lastSeq := Replays.Higher(lastSeq, seqNo);
        Project(m, uid, true);
      }
    }

    /** A send given up: its key is discarded, nothing is projected. */
    method FailSend(cfg: Config, m: Message, ghost s: System, ghost a: nat, ghost step: Action)
      requires Tracks(cfg, s) && a < |s.attempts| && s.attempts[a].message == m
      requires step == CoreFails(a) || (step == JetstreamFails(a) && s.attempts[a].requireJetstream)
      requires Enabled(cfg, s, step)
      modifies sent
      ensures Tracks(cfg, Step(cfg, s, step))
    {
      var after := Step(cfg, s, step);
      assert after.ops[..|s.ops|] == s.ops;
      sent.Discard(EchoKey(cfg, m));
    }

    /** A frame of one of the hub's own sends comes back. */
    method HandleEcho(cfg: Config, m: Message, now: real, live: bool, ghost s: System, ghost a: nat)
      returns (d: Disposition)
      requires Valid() && Tracks(cfg, s) && Invariant(cfg, s) && a < |s.attempts| && s.attempts[a].message == m
      modifies this
      ensures Valid() && Tracks(cfg, Step(cfg, s, EchoArrives(a)))
      ensures d == Receive(cfg, old(sent.ids), m)
    {
      EchoKeepsCounts(cfg, s, a, projected);
      d := HandleMsg(cfg, m, now, live);
    }
  }

  function WithDm(dms: map<string, seq<Message>>, uid: string, m: Message): map<string, seq<Message>> {
    dms[uid := Keep(if uid in dms then dms[uid] else [], m, DM_LIMIT)]
  }

  function Times(projected: seq<Message>, m: Message): nat {
    multiset(projected)[m]
  }

  ghost predicate CountsAgree(s: System, projected: seq<Message>) {
    forall a: nat :: a < |s.attempts| ==> Times(projected, s.attempts[a].message) == Count(s.log, a)
  }

  lemma BeginKeepsCounts(cfg: Config, s: System, m: Message, requireJetstream: bool, projected: seq<Message>)
    requires Invariant(cfg, s) && KeyIsNew(cfg, s, m) && CountsAgree(s, projected) && m !in projected
    ensures var after := Step(cfg, s, Begin(m, requireJetstream));
            && CountsAgree(after, projected)
            && Sent(cfg, after) == S.Apply(Sent(cfg, s), S.Add(EchoKey(cfg, m)), cfg.cap)
  {
    var after := Step(cfg, s, Begin(m, requireJetstream));
    assert after.ops[..|s.ops|] == s.ops;
    CountAbsent(s.log, |s.attempts|);
    assert m !in multiset(projected);
  }

  /** Appending one attempt's frame counts for that attempt alone. */
  lemma AppendCounts(cfg: Config, s: System, a: nat, projected: seq<Message>)
    requires Invariant(cfg, s) && CountsAgree(s, projected) && a < |s.attempts|
    ensures CountsAgree(s.(log := s.log + [a]), projected + [s.attempts[a].message])
  {
    forall b: nat | b < |s.attempts|
      ensures Times(projected + [s.attempts[a].message], s.attempts[b].message) == Count(s.log + [a], b)
    {
      CountAppend(s.log, a, b);
      assert Keys(cfg, s)[a] == KeyOf(cfg, s, a) && Keys(cfg, s)[b] == KeyOf(cfg, s, b);
    }
  }

  lemma CompleteKeepsCounts(cfg: Config, s: System, a: nat, step: Action, projected: seq<Message>)
    requires Invariant(cfg, s) && CountsAgree(s, projected) && a < |s.attempts|
    requires (step.PubAck? && step.a == a) || step == CoreAccepts(a)
    requires Enabled(cfg, s, step)
    ensures Sent(cfg, Step(cfg, s, step)) == Sent(cfg, s)
    ensures CountsAgree(Step(cfg, s, step), if step.PubAck? && step.duplicate then projected
                                            else projected + [s.attempts[a].message])
  {
    if !(step.PubAck? && step.duplicate) {
      AppendCounts(cfg, s, a, projected);
    }
  }

  lemma EchoKeepsCounts(cfg: Config, s: System, a: nat, projected: seq<Message>)
    requires Invariant(cfg, s) && CountsAgree(s, projected) && a < |s.attempts|
    ensures var lands := Lands(Receive(cfg, Sent(cfg, s), s.attempts[a].message));
            CountsAgree(Step(cfg, s, EchoArrives(a)), projected + if lands then [s.attempts[a].message] else [])
  {
    if Lands(Receive(cfg, Sent(cfg, s), s.attempts[a].message)) {
      AppendCounts(cfg, s, a, projected);
    } else {
      assert projected + [] == projected;
    }
  }
}
