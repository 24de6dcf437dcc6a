/** The hub's own messages coming back off the wire, interleaved with sends, acknowledgements and failures. */
module Echo {
  // Attempts are numbered in the order they begin.  `log` is everything ever appended to the chat and
  // direct-message logs, as attempt numbers; `ops` is everything ever done to the set of sent keys.

  import opened Wrappers
  import opened Joining
  import S = SentIds

  const MAX_INBOUND_BYTES: nat := 64 * 1024
  const MAX_SUBJECT_CHARS: nat := 256
  const MAX_INBOUND_TEXT_CHARS: nat := 8000

  /** A frame on the wire: its subject and its exact bytes (both written as characters up to 255). */
  datatype Message = Message(subject: string, data: string)

  /**
   What the hub is configured with: the digest, the text a payload carries, the text its payload is shown
   by when it is an object, and who owns a subject.
   */
  datatype Config = Config(
    digest: string -> string,
    textOf: string -> string,
    shownAs: string -> Option<string>,
    addressed: string -> Option<string>,
    chatSubject: string,
    cap: nat)

  function EchoKey(cfg: Config, m: Message): string {
    "wire:" + cfg.digest(m.subject + "\0" + m.data)
  }

  // ---- receiving a frame

  predicate SubjectChar(c: char) {
    'A' <= c <= 'Z' || 'a' <= c <= 'z' || '0' <= c <= '9' || c == '_' || c == '-'
  }

  /** Non-empty tokens of subject characters, joined by single dots. */
  predicate DottedTokens(subject: string) {
    && subject != []
    && (forall i :: 0 <= i < |subject| ==> SubjectChar(subject[i]) || subject[i] == '.')
    && subject[0] != '.' && subject[|subject| - 1] != '.'
    && (forall i :: 0 < i < |subject| ==> !(subject[i - 1] == '.' && subject[i] == '.'))
  }

  predicate SafeSubject(subject: string) {
    |subject| <= MAX_SUBJECT_CHARS && DottedTokens(subject)
  }

  datatype Disposition =
    | Quarantined(reason: string)
    | Suppressed
    | ToChat
    | ToDm(uid: string)
    | RawOnly

  function Receive(cfg: Config, sent: seq<string>, m: Message): Disposition {
    var text := cfg.textOf(m.data);
    if !SafeSubject(m.subject) then Quarantined("invalid_subject")
    else if |m.data| > MAX_INBOUND_BYTES then Quarantined("payload_too_large")
    else if |text| > MAX_INBOUND_TEXT_CHARS then Quarantined("text_too_large")
    else if EchoKey(cfg, m) in sent then Suppressed
    else if m.subject == cfg.chatSubject && text != "" then ToChat
    else if "dharma.a2a." <= m.subject && cfg.addressed(m.subject).Some? && text != ""
    then ToDm(cfg.addressed(m.subject).value)
    else RawOnly
  }

  predicate Lands(d: Disposition) {
    d.ToChat? || d.ToDm?
  }

  // ---- where a frame goes, told by the frame alone

  /** The bounds under which a frame is looked at at all. */
  predicate Receivable(cfg: Config, m: Message) {
    SafeSubject(m.subject) && |m.data| <= 65536 && |cfg.textOf(m.data)| <= 8000
  }

  predicate ForChat(cfg: Config, m: Message) {
    Receivable(cfg, m) && cfg.textOf(m.data) != "" && m.subject == cfg.chatSubject
  }

  predicate ForAgent(cfg: Config, m: Message, uid: string) {
    && Receivable(cfg, m) && cfg.textOf(m.data) != "" && m.subject != cfg.chatSubject
    && "dharma.a2a." <= m.subject && cfg.addressed(m.subject) == Some(uid)
  }

  /** The frame belongs in the chat or in some agent's log. */
  predicate Conversational(cfg: Config, m: Message) {
    ForChat(cfg, m) || (cfg.addressed(m.subject).Some? && ForAgent(cfg, m, cfg.addressed(m.subject).value))
  }

  /**
   A frame is quarantined exactly when it is not receivable, and then for the first bound it breaks; a
   receivable one is suppressed exactly when its key is on record; and any other reaches the chat or an
   agent's log exactly when it is addressed there and carries text.
   */
  lemma ReceiveMeaning(cfg: Config, sent: seq<string>, m: Message, uid: string)
    ensures var d := Receive(cfg, sent, m);
            && (d.Quarantined? <==> !Receivable(cfg, m))
            && (d.Quarantined? ==>
                  d.reason == if !SafeSubject(m.subject) then "invalid_subject"
                              else if |m.data| > 65536 then "payload_too_large" else "text_too_large")
            && (d == Suppressed <==> Receivable(cfg, m) && EchoKey(cfg, m) in sent)
            && (d == ToChat <==> ForChat(cfg, m) && EchoKey(cfg, m) !in sent)
            && (d == ToDm(uid) <==> ForAgent(cfg, m, uid) && EchoKey(cfg, m) !in sent)
            && (Lands(d) <==> Conversational(cfg, m) && EchoKey(cfg, m) !in sent)
  {
  }

  /** Tokens joined by dots. */
  function Dotted(tokens: seq<string>): string
    requires tokens != []
  {
    if |tokens| == 1 then tokens[0] else tokens[0] + "." + Dotted(tokens[1..])
  }

  predicate Token(token: string) {
    token != "" && forall i :: 0 <= i < |token| ==> SubjectChar(token[i])
  }

  /** A subject of the accepted form is one or more non-empty tokens joined by dots. */
  lemma {:induction false} DottedIsAccepted(tokens: seq<string>)
    requires tokens != [] && forall token <- tokens :: Token(token)
    ensures DottedTokens(Dotted(tokens))
  {
    assert Token(tokens[0]);
    if |tokens| > 1 {
      DottedIsAccepted(tokens[1..]);
      var rest := Dotted(tokens[1..]);
      assert forall i :: |tokens[0]| < i < |Dotted(tokens)| ==> Dotted(tokens)[i] == rest[i - |tokens[0]| - 1];
    }
  }

  lemma {:induction false} AcceptedIsDotted(subject: string) returns (tokens: seq<string>)
    requires DottedTokens(subject)
    ensures tokens != [] && (forall token <- tokens :: Token(token)) && Dotted(tokens) == subject
  {
    if '.' in subject {
      var k := FirstDot(subject);
      var token, rest := subject[..k], subject[k + 1..];
      assert DottedTokens(rest) by {
        assert forall i :: 0 <= i < |rest| ==> rest[i] == subject[k + 1 + i];
      }
      var more := AcceptedIsDotted(rest);
      tokens := [token] + more;
      assert tokens[1..] == more;
      assert subject == token + "." + rest;
    } else {
      tokens := [subject];
    }
  }

  lemma {:induction false} FirstDot(subject: string) returns (k: nat)
    requires '.' in subject
    ensures k < |subject| && subject[k] == '.' && forall i :: 0 <= i < k ==> subject[i] != '.'
  {
    if subject[0] == '.' {
      k := 0;
    } else {
      var j := FirstDot(subject[1..]);
      k := j + 1;
    }
  }

  lemma SafeSubjectMeaning(subject: string)
    ensures SafeSubject(subject) <==>
              |subject| <= 256
              && exists tokens :: tokens != [] && (forall token <- tokens :: Token(token)) && Dotted(tokens) == subject
  {
    if DottedTokens(subject) {
      var tokens := AcceptedIsDotted(subject);
    }
    if tokens :| tokens != [] && (forall token <- tokens :: Token(token)) && Dotted(tokens) == subject {
      DottedIsAccepted(tokens);
    }
  }

  // ---- keys

  /** The text given to the digest determines subject and bytes, as long as subjects hold no NUL. */
  lemma PreimageInjective(a: Message, b: Message)
    requires '\0' !in a.subject && '\0' !in b.subject
    requires a.subject + "\0" + a.data == b.subject + "\0" + b.data
    ensures a == b
  {
    JoinInjective('\0', a.subject, a.data, b.subject, b.data);
  }

  ghost predicate CollisionFree(digest: string -> string) {
    forall x, y :: digest(x) == digest(y) ==> x == y
  }

  lemma DistinctMessagesDistinctKeys(cfg: Config, a: Message, b: Message)
    requires CollisionFree(cfg.digest) && '\0' !in a.subject && '\0' !in b.subject
    ensures EchoKey(cfg, a) == EchoKey(cfg, b) <==> a == b
  {
    var da, db := cfg.digest(a.subject + "\0" + a.data), cfg.digest(b.subject + "\0" + b.data);
    assert ("wire:" + da)[5..] == da && ("wire:" + db)[5..] == db;
    if da == db {
      PreimageInjective(a, b);
    }
  }

  // ---- the interleaving

  datatype Phase = Publishing | FallingBack | Finished(duplicate: bool) | Failed

  /**
   `added` is where in `ops` the attempt's key was added; `echoes` how often its frame came back, and
   `late` how often after the attempt was given up.
   */
  datatype Attempt = Attempt(
    message: Message, requireJetstream: bool, phase: Phase, added: nat, echoes: nat, late: nat)

  datatype System = System(attempts: seq<Attempt>, ops: seq<S.Op>, log: seq<nat>)

  datatype Action =
    | Begin(message: Message, requireJetstream: bool)
    | PubAck(a: nat, duplicate: bool)
    | JetstreamFails(a: nat)
    | CoreAccepts(a: nat)
    | CoreFails(a: nat)
    | EchoArrives(a: nat)

  function Sent(cfg: Config, s: System): seq<string> {
    S.Replay([], s.ops, cfg.cap)
  }

  function KeyOf(cfg: Config, s: System, a: nat): string
    requires a < |s.attempts|
  {
    EchoKey(cfg, s.attempts[a].message)
  }

  predicate KeyIsNew(cfg: Config, s: System, m: Message) {
    forall b: nat :: b < |s.attempts| ==> KeyOf(cfg, s, b) != EchoKey(cfg, m)
  }

  function InPhase(s: System, a: nat, phase: Phase): System
    requires a < |s.attempts|
  {
    s.(attempts := s.attempts[a := s.attempts[a].(phase := phase)])
  }

  function GiveUp(cfg: Config, s: System, a: nat): System
    requires a < |s.attempts|
  {
    InPhase(s, a, Failed).(ops := s.ops + [S.Discard(KeyOf(cfg, s, a))])
  }

  predicate Enabled(cfg: Config, s: System, action: Action) {
    match action
    case Begin(message, _) => KeyIsNew(cfg, s, message)
    case PubAck(a, _) => a < |s.attempts| && s.attempts[a].phase.Publishing?
    case JetstreamFails(a) => a < |s.attempts| && s.attempts[a].phase.Publishing?
    case CoreAccepts(a) => a < |s.attempts| && s.attempts[a].phase.FallingBack?
    case CoreFails(a) => a < |s.attempts| && s.attempts[a].phase.FallingBack?
    case EchoArrives(a) => a < |s.attempts|
  }

  function Step(cfg: Config, s: System, action: Action): System
    requires Enabled(cfg, s, action)
  {
    match action
    case Begin(message, requireJetstream) =>
      s.(attempts := s.attempts + [Attempt(message, requireJetstream, Publishing, |s.ops|, 0, 0)],
         ops := s.ops + [S.Add(EchoKey(cfg, message))])
    case PubAck(a, duplicate) =>
      InPhase(s, a, Finished(duplicate)).(log := if duplicate then s.log else s.log + [a])
    case JetstreamFails(a) =>
      if s.attempts[a].requireJetstream then GiveUp(cfg, s, a) else InPhase(s, a, FallingBack)
    case CoreAccepts(a) => InPhase(s, a, Finished(false)).(log := s.log + [a])
    case CoreFails(a) => GiveUp(cfg, s, a)
    case EchoArrives(a) =>
      var attempt := s.attempts[a];
      s.(attempts := s.attempts[a := attempt.(echoes := attempt.echoes + 1,
                                              late := attempt.late + if attempt.phase.Failed? then 1 else 0)],
         log := if Lands(Receive(cfg, Sent(cfg, s), s.attempts[a].message)) then s.log + [a] else s.log)
  }

  /** The echo of a send not given up is timely while fewer than `cap` other keys were added since its own. */
  predicate Timely(cfg: Config, s: System, action: Action) {
    action.EchoArrives? && action.a < |s.attempts| && !s.attempts[action.a].phase.Failed? ==>
      |s.attempts| <= action.a + cfg.cap
  }

  /** The runs in which every send has wire bytes of its own and every echo is timely. */
  ghost predicate Reaches(cfg: Config, actions: seq<Action>, s: System) {
    if actions == [] then s == System([], [], [])
    else
      var last := actions[|actions| - 1];
      exists before ::
        && Reaches(cfg, actions[..|actions| - 1], before)
        && Enabled(cfg, before, last) && Timely(cfg, before, last)
        && s == Step(cfg, before, last)
  }

  // ---- the invariant

  function Count(log: seq<nat>, a: nat): nat {
    if log == [] then 0 else Count(log[..|log| - 1], a) + (if log[|log| - 1] == a then 1 else 0)
  }

  lemma CountAppend(log: seq<nat>, x: nat, a: nat)
    ensures Count(log + [x], a) == Count(log, a) + if x == a then 1 else 0
  {
    assert (log + [x])[..|log|] == log;
  }

  /** What was done to the set of sent keys since the attempt's own key was added. */
  function SinceAdded(s: System, a: nat): seq<S.Op>
    requires a < |s.attempts|
  {
    var k := s.attempts[a].added;
    if k < |s.ops| then s.ops[k + 1..] else []
  }

  lemma SinceAddedGrows(s: System, after: System, a: nat, op: S.Op)
    requires a < |s.attempts| && a < |after.attempts| && after.attempts[a].added == s.attempts[a].added < |s.ops|
    requires after.ops == s.ops + [op]
    ensures SinceAdded(after, a) == SinceAdded(s, a) + [op]
  {
  }

  /** What is known of one attempt's key: added once, then only keys of later attempts are added. */
  ghost predicate KeyOk(cfg: Config, s: System, a: nat)
    requires a < |s.attempts|
  {
    var attempt := s.attempts[a];
    && attempt.added < |s.ops| && s.ops[attempt.added] == S.Add(KeyOf(cfg, s, a))
    && (forall i :: attempt.added < i < |s.ops| ==>
          if s.ops[i].Add? then s.ops[i].id in LaterKeys(cfg, s, a)
          else s.ops[i].id == KeyOf(cfg, s, a) ==> attempt.phase.Failed?)
    && (attempt.phase.Failed? ==> S.Discard(KeyOf(cfg, s, a)) in SinceAdded(s, a))
  }

  function Keys(cfg: Config, s: System): (keys: seq<string>)
    ensures |keys| == |s.attempts|
    ensures forall a: nat :: a < |s.attempts| ==> keys[a] == KeyOf(cfg, s, a)
  {
    seq(|s.attempts|, a requires 0 <= a < |s.attempts| => KeyOf(cfg, s, a))
  }

  /** The keys of the attempts after a. */
  function LaterKeys(cfg: Config, s: System, a: nat): set<string>
    requires a < |s.attempts|
  {
    S.Elements(Keys(cfg, s)[a + 1..])
  }

  ghost predicate CountOk(cfg: Config, s: System, a: nat)
    requires a < |s.attempts|
  {
    var attempt := s.attempts[a];
    && attempt.late <= attempt.echoes && (!attempt.phase.Failed? ==> attempt.late == 0)
    && Count(s.log, a) == match attempt.phase
                          case Finished(duplicate) => if duplicate then 0 else 1
                          case Failed => if Conversational(cfg, attempt.message) then attempt.late else 0
                          case _ => 0
  }

  ghost predicate Invariant(cfg: Config, s: System) {
    && S.Unique(Keys(cfg, s))
    && (forall a: nat :: a < |s.attempts| ==> KeyOk(cfg, s, a) && CountOk(cfg, s, a))
    && (forall a <- s.log :: a < |s.attempts|)
  }

  lemma {:induction false} ReplaySplit(ids: seq<string>, ops: seq<S.Op>, k: nat, cap: nat)
    requires k <= |ops|
    ensures S.Replay(ids, ops, cap) == S.Replay(S.Replay(ids, ops[..k], cap), ops[k..], cap)
    decreases |ops|
  {
    if k == |ops| {
      assert ops[..k] == ops;
    } else {
      var n := |ops| - 1;
      ReplaySplit(ids, ops[..n], k, cap);
      assert ops[..n][..k] == ops[..k] && ops[..n][k..] == ops[k..][..|ops| - k - 1];
    }
  }

  lemma {:induction false} ReplayUnique(ops: seq<S.Op>, cap: nat)
    ensures S.Unique(S.Replay([], ops, cap)) && |S.Replay([], ops, cap)| <= cap
  {
    if ops != [] {
      ReplayUnique(ops[..|ops| - 1], cap);
      S.ApplyUnique(S.Replay([], ops[..|ops| - 1], cap), ops[|ops| - 1], cap);
    }
  }

  /** The sent set after an attempt's key was added and the later operations were done. */
  lemma SentSinceAdded(cfg: Config, s: System, a: nat)
    returns (before: seq<string>, later: seq<S.Op>)
    requires Invariant(cfg, s) && a < |s.attempts|
    ensures S.Unique(before) && |before| <= cfg.cap
    ensures s.attempts[a].added < |s.ops| && later == SinceAdded(s, a) == s.ops[s.attempts[a].added + 1..]
    ensures Sent(cfg, s) == S.Replay(S.Apply(before, S.Add(KeyOf(cfg, s, a)), cfg.cap), later, cfg.cap)
  {
    assert KeyOk(cfg, s, a);
    var k := s.attempts[a].added;
    before, later := S.Replay([], s.ops[..k], cfg.cap), s.ops[k + 1..];
    ReplayUnique(s.ops[..k], cfg.cap);
    ReplaySplit([], s.ops, k + 1, cfg.cap);
    assert s.ops[..k + 1][..k] == s.ops[..k];
  }

  /** A key not given up is still held while fewer than `cap` sends began after it. */
  lemma TimelyIsHeld(cfg: Config, s: System, a: nat)
    requires Invariant(cfg, s) && a < |s.attempts| <= a + cfg.cap && !s.attempts[a].phase.Failed?
    ensures KeyOf(cfg, s, a) in Sent(cfg, s)
  {
    assert KeyOk(cfg, s, a);
    var before, later := SentSinceAdded(cfg, s, a);
    var key := KeyOf(cfg, s, a);
    forall op <- later ensures if op.Add? then op.id in LaterKeys(cfg, s, a) else op.id != key {
      var i :| 0 <= i < |later| && later[i] == op;
      assert s.ops[s.attempts[a].added + 1 + i] == op;
    }
    S.SubsetNoLarger(S.Others(later, key), LaterKeys(cfg, s, a));
    S.ElementsNoMore(Keys(cfg, s)[a + 1..]);
    S.Survives(before, key, later, cfg.cap);
  }

  /** An attempt's key is not added again, and it is discarded afterwards exactly when the attempt fails. */
  lemma DiscardedExactlyWhenFailed(cfg: Config, s: System, a: nat)
    requires Invariant(cfg, s) && a < |s.attempts|
    ensures S.Add(KeyOf(cfg, s, a)) !in SinceAdded(s, a)
    ensures S.Discard(KeyOf(cfg, s, a)) in SinceAdded(s, a) <==> s.attempts[a].phase.Failed?
  {
    assert KeyOk(cfg, s, a);
    var k, keys := s.attempts[a].added, Keys(cfg, s);
    assert keys[a] !in keys[a + 1..];
    forall op <- SinceAdded(s, a)
      ensures op != S.Add(KeyOf(cfg, s, a))
      ensures op == S.Discard(KeyOf(cfg, s, a)) ==> s.attempts[a].phase.Failed?
    {
      var i :| 0 <= i < |SinceAdded(s, a)| && SinceAdded(s, a)[i] == op;
      assert s.ops[k + 1 + i] == op;
    }
  }

  /** The key of a send given up is off the record for good. */
  lemma FailedIsNotHeld(cfg: Config, s: System, a: nat)
    requires Invariant(cfg, s) && a < |s.attempts| && s.attempts[a].phase.Failed?
    ensures KeyOf(cfg, s, a) !in Sent(cfg, s)
  {
    DiscardedExactlyWhenFailed(cfg, s, a);
    var before, later := SentSinceAdded(cfg, s, a);
    if cfg.cap > 0 {
      S.HeldExactlyWhileRoom(before, KeyOf(cfg, s, a), later, cfg.cap);
    } else {
      ReplayUnique(s.ops, cfg.cap);
    }
  }

  lemma BeginKeepsInvariant(cfg: Config, s: System, message: Message, requireJetstream: bool)
    requires Invariant(cfg, s) && KeyIsNew(cfg, s, message)
    ensures Invariant(cfg, Step(cfg, s, Begin(message, requireJetstream)))
  {
    var after := Step(cfg, s, Begin(message, requireJetstream));
    var n := |s.attempts|;
    assert Keys(cfg, after) == Keys(cfg, s) + [EchoKey(cfg, message)];
    forall a: nat | a < n + 1 ensures KeyOk(cfg, after, a) && CountOk(cfg, after, a) {
      if a < n {
        assert KeyOk(cfg, s, a) && CountOk(cfg, s, a);
        SinceAddedGrows(s, after, a, S.Add(EchoKey(cfg, message)));
        assert Keys(cfg, after)[a + 1..] == Keys(cfg, s)[a + 1..] + [EchoKey(cfg, message)];
      } else {
        CountAbsent(s.log, n);
      }
    }
  }

  lemma {:induction false} CountAbsent(log: seq<nat>, a: nat)
    requires a !in log
    ensures Count(log, a) == 0
  {
    if log != [] {
      CountAbsent(log[..|log| - 1], a);
    }
  }

  /** A key is known as before when the attempt keeps its own and only a failing attempt's key was discarded. */
  lemma KeyStaysOk(cfg: Config, s: System, a: nat, after: System, b: nat)
    requires Invariant(cfg, s) && a < |s.attempts| == |after.attempts| && b < |s.attempts|
    requires Keys(cfg, after) == Keys(cfg, s)
    requires after.attempts[b].added == s.attempts[b].added
    requires s.attempts[b].phase.Failed? ==> after.attempts[b].phase.Failed?
    requires after.ops == s.ops
             || (after.ops == s.ops + [S.Discard(KeyOf(cfg, s, a))] && after.attempts[a].phase.Failed?)
    requires b == a && after.attempts[a].phase.Failed? && after.ops == s.ops ==> s.attempts[a].phase.Failed?
    requires b != a ==> after.attempts[b] == s.attempts[b]
    ensures KeyOk(cfg, after, b)
  {
    assert KeyOk(cfg, s, b);
    assert Keys(cfg, s)[b] == KeyOf(cfg, s, b) && Keys(cfg, s)[a] == KeyOf(cfg, s, a);
    assert Keys(cfg, after)[b] == KeyOf(cfg, after, b);
    if after.ops != s.ops {
      SinceAddedGrows(s, after, b, S.Discard(KeyOf(cfg, s, a)));
    }
  }

  /** Any other step changes one attempt, its own log entries and, when it gives up, discards its own key. */
  lemma AttemptStepKeepsInvariant(cfg: Config, s: System, a: nat, after: System)
    requires Invariant(cfg, s) && a < |s.attempts| == |after.attempts|
    requires forall b: nat :: b < |s.attempts| && b != a ==> after.attempts[b] == s.attempts[b]
    requires after.attempts[a].message == s.attempts[a].message && after.attempts[a].added == s.attempts[a].added
    requires s.attempts[a].phase.Failed? ==> after.attempts[a].phase.Failed?
    requires after.ops == s.ops
             || (after.ops == s.ops + [S.Discard(KeyOf(cfg, s, a))] && after.attempts[a].phase.Failed?)
    requires after.attempts[a].phase.Failed? && after.ops == s.ops ==> s.attempts[a].phase.Failed?
    requires after.log == s.log || after.log == s.log + [a]
    requires CountOk(cfg, after, a)
    ensures Invariant(cfg, after)
  {
    assert Keys(cfg, after) == Keys(cfg, s);
    forall b: nat | b < |s.attempts| ensures KeyOk(cfg, after, b) && CountOk(cfg, after, b) {
      assert CountOk(cfg, s, b);
      KeyStaysOk(cfg, s, a, after, b);
      CountAppend(s.log, a, b);
    }
  }

  lemma AttemptStepKeepsCount(cfg: Config, s: System, action: Action)
    requires Enabled(cfg, s, action) && !action.Begin? && action.a < |s.attempts| && CountOk(cfg, s, action.a)
    requires action.EchoArrives? ==>
               (KeyOf(cfg, s, action.a) in Sent(cfg, s) <==> !s.attempts[action.a].phase.Failed?)
    ensures CountOk(cfg, Step(cfg, s, action), action.a)
  {
    CountAppend(s.log, action.a, action.a);
    if action.EchoArrives? {
      ReceiveMeaning(cfg, Sent(cfg, s), s.attempts[action.a].message, "");
    }
  }

  lemma StepKeepsInvariant(cfg: Config, s: System, action: Action)
    requires Invariant(cfg, s) && Enabled(cfg, s, action) && Timely(cfg, s, action)
    ensures Invariant(cfg, Step(cfg, s, action))
  {
    if action.Begin? {
      BeginKeepsInvariant(cfg, s, action.message, action.requireJetstream);
    } else {
      assert CountOk(cfg, s, action.a);
      if action.EchoArrives? {
        if s.attempts[action.a].phase.Failed? {
          FailedIsNotHeld(cfg, s, action.a);
        } else {
          TimelyIsHeld(cfg, s, action.a);
        }
      }
      AttemptStepKeepsCount(cfg, s, action);
      AttemptStepKeepsInvariant(cfg, s, action.a, Step(cfg, s, action));
    }
  }

  lemma {:induction false} ReachesInvariant(cfg: Config, actions: seq<Action>, s: System)
    requires Reaches(cfg, actions, s)
    ensures Invariant(cfg, s)
  {
    if actions != [] {
      var last := actions[|actions| - 1];
      var before :|
        && Reaches(cfg, actions[..|actions| - 1], before)
        && Enabled(cfg, before, last) && Timely(cfg, before, last)
        && s == Step(cfg, before, last);
      ReachesInvariant(cfg, actions[..|actions| - 1], before);
      StepKeepsInvariant(cfg, before, last);
    }
  }

  // ---- what every run promises

  /**
   Echo exactly-once.  However sends, acknowledgements, failures and timely echoes interleave: a send
   that went through and was no duplicate is in the logs exactly once, one that is still going or was
   a duplicate not at all, and one that was given up exactly as often as its frame came back afterwards,
   if it belongs in a log at all.
   */
  lemma ProjectedExactlyOnce(cfg: Config, actions: seq<Action>, s: System, a: nat)
    requires Reaches(cfg, actions, s) && a < |s.attempts|
    ensures match s.attempts[a].phase
            case Finished(duplicate) => Count(s.log, a) == if duplicate then 0 else 1
            case Failed =>
              Count(s.log, a) == if Conversational(cfg, s.attempts[a].message) then s.attempts[a].late else 0
            case _ => Count(s.log, a) == 0
    ensures s.attempts[a].late <= s.attempts[a].echoes
    ensures s.attempts[a].echoes <= 1 ==> Count(s.log, a) <= 1
  {
    ReachesInvariant(cfg, actions, s);
    assert CountOk(cfg, s, a);
  }

  /**
   The timeliness bound is exact.  A returning frame is recognised exactly when its send was not given up
   and at no time since it began were `cap` later sends begun and not given up.  In a run without
   failures, that is exactly while fewer than `cap` sends began after it.
   */
  lemma RecognisedExactlyWhileRecent(cfg: Config, actions: seq<Action>, s: System, a: nat)
    requires Reaches(cfg, actions, s) && a < |s.attempts| && cfg.cap > 0
    ensures KeyOf(cfg, s, a) in Sent(cfg, s) <==>
              !s.attempts[a].phase.Failed? && S.RoomThroughout(SinceAdded(s, a), cfg.cap)
    ensures (forall op <- s.ops :: op.Add?) ==> (KeyOf(cfg, s, a) in Sent(cfg, s) <==> |s.attempts| <= a + cfg.cap)
  {
    ReachesInvariant(cfg, actions, s);
    var before, later := SentSinceAdded(cfg, s, a);
    DiscardedExactlyWhenFailed(cfg, s, a);
    S.HeldExactlyWhileRoom(before, KeyOf(cfg, s, a), later, cfg.cap);
    if forall op <- s.ops :: op.Add? {
      LaterAddsAreLaterKeys(cfg, s, a);
      S.UniqueSize(Keys(cfg, s)[a + 1..]);
      S.GoneExactlyAtCap(before, KeyOf(cfg, s, a), later, cfg.cap);
    }
  }

  lemma AddedInOrder(cfg: Config, s: System, a: nat, b: nat)
    requires Invariant(cfg, s) && a < b < |s.attempts|
    ensures s.attempts[a].added < s.attempts[b].added < |s.ops|
  {
    assert KeyOk(cfg, s, a) && KeyOk(cfg, s, b);
    var keys := Keys(cfg, s);
    assert keys[a] !in keys[b + 1..] && keys[a] != keys[b];
  }

  lemma LaterAddsAreLaterKeys(cfg: Config, s: System, a: nat)
    requires Invariant(cfg, s) && a < |s.attempts|
    requires forall op <- s.ops :: op.Add?
    ensures s.attempts[a].added < |s.ops|
    ensures var later := s.ops[s.attempts[a].added + 1..];
            && (forall op <- later :: op.Add? && op.id != KeyOf(cfg, s, a))
            && S.Others(later, KeyOf(cfg, s, a)) == LaterKeys(cfg, s, a)
  {
    assert KeyOk(cfg, s, a);
    var key, k := KeyOf(cfg, s, a), s.attempts[a].added;
    var keys, later := Keys(cfg, s), s.ops[k + 1..];
    assert keys[a] !in keys[a + 1..];
    forall op <- later ensures op.Add? && op.id in LaterKeys(cfg, s, a) {
      var i :| 0 <= i < |later| && later[i] == op;
      assert s.ops[k + 1 + i] == op;
    }
    forall x <- keys[a + 1..] ensures x in S.Others(later, key) {
      var i :| 0 <= i < |keys[a + 1..]| && keys[a + 1..][i] == x;
      LaterKeyWasAdded(cfg, s, a, a + 1 + i);
    }
  }

  lemma LaterKeyWasAdded(cfg: Config, s: System, a: nat, b: nat)
    requires Invariant(cfg, s) && a < b < |s.attempts|
    ensures S.Add(KeyOf(cfg, s, b)) in SinceAdded(s, a) && KeyOf(cfg, s, b) != KeyOf(cfg, s, a)
  {
    AddedInOrder(cfg, s, a, b);
    assert KeyOk(cfg, s, b);
    var k, n := s.attempts[a].added, s.attempts[b].added;
    assert SinceAdded(s, a)[n - k - 1] == s.ops[n];
    assert Keys(cfg, s)[a] == KeyOf(cfg, s, a) && Keys(cfg, s)[b] == KeyOf(cfg, s, b);
  }
}
