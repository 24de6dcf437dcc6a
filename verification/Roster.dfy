/** The lookup tables built from the roster, and whom a message is addressed to. */
module Roster {
  import opened Wrappers
  import Echo

  datatype Agent = Agent(
    uid: string, subject: Option<string>, callsign: Option<string>, displayName: Option<string>, archived: bool)

  type Fold = string -> string

  /** One agent's claim to a key of a table. */
  datatype Claim = Claim(key: string, uid: string)

  datatype Index = Index(owner: map<string, string>, ambiguous: set<string>)

  function NameClaims(a: Agent, fold: Fold): seq<Claim> {
    NameClaim(a.uid, a.uid, fold)
    + (if a.callsign.Some? then NameClaim(a.callsign.value, a.uid, fold) else [])
    + (if a.displayName.Some? then NameClaim(a.displayName.value, a.uid, fold) else [])
  }

  function NameClaim(name: string, uid: string, fold: Fold): seq<Claim> {
    if name == "" then [] else [Claim(fold(name), uid)]
  }

  function SubjectClaims(a: Agent): seq<Claim> {
    if a.subject.Some? && Echo.SafeSubject(a.subject.value) then [Claim(a.subject.value, a.uid)] else []
  }

  /** What each agent claims, in the order of the roster. */
  function AllClaims(agents: seq<Agent>, claimed: Agent -> seq<Claim>): seq<Claim> {
    if agents == [] then [] else AllClaims(agents[..|agents| - 1], claimed) + claimed(agents[|agents| - 1])
  }

  function AllNameClaims(agents: seq<Agent>, fold: Fold): seq<Claim> {
    AllClaims(agents, a => NameClaims(a, fold))
  }

  function AllSubjectClaims(agents: seq<Agent>): seq<Claim> {
    AllClaims(agents, SubjectClaims)
  }

  /** Everyone who claims a key. */
  function Claimants(claims: seq<Claim>, key: string): set<string> {
    set c <- claims | c.key == key :: c.uid
  }

  /** The table as it should be: a key with one claimant leads to it, a key with more is ambiguous. */
  ghost predicate Indexes(index: Index, claims: seq<Claim>) {
    && (forall key, uid :: key in index.owner && index.owner[key] == uid <==> Claimants(claims, key) == {uid})
    && (forall key :: key in index.ambiguous <==>
          exists u, v :: u != v && u in Claimants(claims, key) && v in Claimants(claims, key))
  }

  lemma NoneOneOrMore(claimants: set<string>)
    ensures claimants == {}
            || (exists u :: claimants == {u})
            || (exists u, v :: u != v && u in claimants && v in claimants)
  {
    if u :| u in claimants {
      if v :| v in claimants && v != u {
      } else {
        assert claimants == {u};
      }
    }
  }

  /** The two branches of the loop body, on the table. */
  function Register(index: Index, c: Claim): Index {
    if c.key in index.owner && index.owner[c.key] != c.uid then
      Index(index.owner - {c.key}, index.ambiguous + {c.key})
    else if c.key !in index.ambiguous then
      index.(owner := index.owner[c.key := c.uid])
    else index
  }

  lemma ClaimantsSnoc(seen: seq<Claim>, c: Claim, key: string)
    ensures Claimants(seen + [c], key) == Claimants(seen, key) + if key == c.key then {c.uid} else {}
  {
  }

  /** Who claims the key in hand, before and after, against what the table says of it. */
  lemma RegisterKey(index: Index, seen: seq<Claim>, c: Claim)
    requires Indexes(index, seen)
    ensures var after, now := Register(index, c), Claimants(seen, c.key) + {c.uid};
            && (forall uid :: c.key in after.owner && after.owner[c.key] == uid <==> now == {uid})
            && (c.key in after.ambiguous <==> exists u, v :: u != v && u in now && v in now)
  {
    var before := Claimants(seen, c.key);
    NoneOneOrMore(before);
    if c.key in index.owner {
      assert before == {index.owner[c.key]};
    }
    forall uid ensures before + {c.uid} == {uid} <==> uid == c.uid && (before == {} || before == {uid}) {
      assert c.uid in before + {c.uid};
      if before + {c.uid} == {uid} && before != {} {
        assert before == {uid};
      }
    }
  }

  lemma RegisterIndexes(index: Index, seen: seq<Claim>, c: Claim)
    requires Indexes(index, seen)
    ensures Indexes(Register(index, c), seen + [c])
  {
    RegisterKey(index, seen, c);
    forall key ensures Claimants(seen + [c], key) == Claimants(seen, key) + if key == c.key then {c.uid} else {} {
      ClaimantsSnoc(seen, c, key);
    }
  }

  /** The loop over the roster, each agent's name claims and subject claim entering the running tables. */
  method BuildIndexes(agents: seq<Agent>, fold: Fold) returns (names: Index, subjects: Index)
    ensures Indexes(names, AllNameClaims(agents, fold))
    ensures Indexes(subjects, AllSubjectClaims(agents))
  {
    names, subjects := Index(map[], {}), Index(map[], {});
    for i := 0 to |agents|
      invariant Indexes(names, AllNameClaims(agents[..i], fold))
      invariant Indexes(subjects, AllSubjectClaims(agents[..i]))
    {
      assert agents[..i + 1][..i] == agents[..i];
      subjects := RegisterAll(subjects, SubjectClaims(agents[i]), AllSubjectClaims(agents[..i]));
      names := RegisterAll(names, NameClaims(agents[i], fold), AllNameClaims(agents[..i], fold));
    }
    assert agents[..|agents|] == agents;
  }

  method RegisterAll(index: Index, claims: seq<Claim>, ghost seen: seq<Claim>) returns (after: Index)
    requires Indexes(index, seen)
    ensures Indexes(after, seen + claims)
  {
    after := index;
    assert seen + [] == seen;
    for i := 0 to |claims|
      invariant Indexes(after, seen + claims[..i])
    {
      assert seen + claims[..i + 1] == seen + claims[..i] + [claims[i]];
      RegisterIndexes(after, seen + claims[..i], claims[i]);
      after := Register(after, claims[i]);
    }
    assert claims[..|claims|] == claims;
  }

  // ---- the order of the roster does not matter

  lemma IndexDetermined(i: Index, j: Index, a: seq<Claim>, b: seq<Claim>)
    requires Indexes(i, a) && Indexes(j, b)
    requires forall key :: Claimants(a, key) == Claimants(b, key)
    ensures i == j
  {
    assert forall key :: key in i.owner ==> Claimants(a, key) == {i.owner[key]};
    assert forall key :: key in j.owner ==> Claimants(b, key) == {j.owner[key]};
    assert i.owner == j.owner;
    assert i.ambiguous == j.ambiguous;
  }

  lemma {:induction false} ClaimsComeFromAgents(agents: seq<Agent>, claimed: Agent -> seq<Claim>)
    ensures forall c :: c in AllClaims(agents, claimed) <==> exists a <- agents :: c in claimed(a)
  {
    if agents != [] {
      var n := |agents| - 1;
      ClaimsComeFromAgents(agents[..n], claimed);
      assert forall a :: a in agents <==> a in agents[..n] || a == agents[n];
    }
  }

  lemma SameAgentsSameClaims(a: seq<Agent>, b: seq<Agent>, claimed: Agent -> seq<Claim>, key: string)
    requires forall agent :: agent in a <==> agent in b
    ensures Claimants(AllClaims(a, claimed), key) == Claimants(AllClaims(b, claimed), key)
  {
    ClaimsComeFromAgents(a, claimed);
    ClaimsComeFromAgents(b, claimed);
    assert forall c :: c in AllClaims(a, claimed) <==> c in AllClaims(b, claimed);
  }

  /** Two listings of the same agents, in any order, give the same tables. */
  lemma OrderDoesNotMatter(a: seq<Agent>, b: seq<Agent>, fold: Fold, i: Index, j: Index, k: Index, l: Index)
    requires forall agent :: agent in a <==> agent in b
    requires Indexes(i, AllNameClaims(a, fold)) && Indexes(j, AllNameClaims(b, fold))
    requires Indexes(k, AllSubjectClaims(a)) && Indexes(l, AllSubjectClaims(b))
    ensures i == j && k == l
  {
    forall key
      ensures Claimants(AllNameClaims(a, fold), key) == Claimants(AllNameClaims(b, fold), key)
      ensures Claimants(AllSubjectClaims(a), key) == Claimants(AllSubjectClaims(b), key)
    {
      SameAgentsSameClaims(a, b, x => NameClaims(x, fold), key);
      SameAgentsSameClaims(a, b, SubjectClaims, key);
    }
    IndexDetermined(i, j, AllNameClaims(a, fold), AllNameClaims(b, fold));
    IndexDetermined(k, l, AllSubjectClaims(a), AllSubjectClaims(b));
  }

  // ---- whom a message goes to

  datatype Route = Group | Direct(uid: string, subject: string) | Refused(error: string)

  function Lookup(agents: seq<Agent>, uid: string): (agent: Option<Agent>)
    ensures agent.Some? ==> agent.value in agents && agent.value.uid == uid
    ensures agent.None? ==> forall a <- agents :: a.uid != uid
  {
    if agents == [] then None
    else if agents[0].uid == uid then Some(agents[0])
    else Lookup(agents[1..], uid)
  }

  function Resolve(agents: seq<Agent>, names: Index, to: string, fold: Fold): Route {
    if to == "" then Group
    else if fold(to) in names.ambiguous then Refused("ambiguous_recipient")
    else if fold(to) !in names.owner then Refused("unknown_recipient")
    else match Lookup(agents, names.owner[fold(to)])
      case None => Refused("unknown_recipient")
      case Some(agent) =>
        if agent.archived then Refused("recipient_archived")
        else if agent.subject.None? || agent.subject.value == "" then Refused("unknown_recipient")
        else Direct(agent.uid, agent.subject.value)
  }

  // ---- what the tables and the routes mean for the agents themselves

  /** The key is the folded form of one of the agent's names: its uid, callsign or display name, none of them empty. */
  predicate GoesBy(a: Agent, key: string, fold: Fold) {
    || (a.uid != "" && key == fold(a.uid))
    || (a.callsign.Some? && a.callsign.value != "" && key == fold(a.callsign.value))
    || (a.displayName.Some? && a.displayName.value != "" && key == fold(a.displayName.value))
  }

  predicate ReachedAt(a: Agent, key: string) {
    a.subject == Some(key) && Echo.SafeSubject(key)
  }

  lemma ClaimedName(a: Agent, c: Claim, fold: Fold)
    ensures c in NameClaims(a, fold) <==> c.uid == a.uid && GoesBy(a, c.key, fold)
  {
    var claims := NameClaims(a, fold);
    var uids := NameClaim(a.uid, a.uid, fold);
    var callsigns := if a.callsign.Some? then NameClaim(a.callsign.value, a.uid, fold) else [];
    var displayed := if a.displayName.Some? then NameClaim(a.displayName.value, a.uid, fold) else [];
    assert claims == uids + callsigns + displayed;
    assert c in claims <==> c in uids || c in callsigns || c in displayed;
  }

  /** Who claims what: an agent's uid stands behind a key exactly when some agent with that uid goes by it. */
  lemma ClaimsAreNames(agents: seq<Agent>, fold: Fold, key: string, uid: string)
    ensures uid in Claimants(AllNameClaims(agents, fold), key) <==>
              exists a <- agents :: a.uid == uid && GoesBy(a, key, fold)
    ensures uid in Claimants(AllSubjectClaims(agents), key) <==>
              exists a <- agents :: a.uid == uid && ReachedAt(a, key)
  {
    ClaimsComeFromAgents(agents, a => NameClaims(a, fold));
    ClaimsComeFromAgents(agents, SubjectClaims);
    var c := Claim(key, uid);
    assert uid in Claimants(AllNameClaims(agents, fold), key) <==> c in AllNameClaims(agents, fold);
    assert uid in Claimants(AllSubjectClaims(agents), key) <==> c in AllSubjectClaims(agents);
    forall a: Agent { ClaimedName(a, c, fold); }
    assert forall a: Agent :: c in SubjectClaims(a) <==> a.uid == uid && ReachedAt(a, key);
  }

  /** The agent goes by the key, and it is the only one to. */
  ghost predicate AloneGoesBy(agents: seq<Agent>, a: Agent, key: string, fold: Fold) {
    a in agents && GoesBy(a, key, fold) && forall b <- agents :: GoesBy(b, key, fold) ==> b.uid == a.uid
  }

  ghost predicate AloneReachedAt(agents: seq<Agent>, a: Agent, key: string) {
    a in agents && ReachedAt(a, key) && forall b <- agents :: ReachedAt(b, key) ==> b.uid == a.uid
  }

  lemma SoleNameClaimant(agents: seq<Agent>, fold: Fold, key: string, uid: string)
    ensures Claimants(AllNameClaims(agents, fold), key) == {uid} <==>
              exists a <- agents :: a.uid == uid && AloneGoesBy(agents, a, key, fold)
  {
    var claimants := Claimants(AllNameClaims(agents, fold), key);
    forall u { ClaimsAreNames(agents, fold, key, u); }
    if claimants == {uid} {
      assert uid in claimants;
      var a :| a in agents && a.uid == uid && GoesBy(a, key, fold);
      forall b <- agents | GoesBy(b, key, fold) ensures b.uid == uid {
        assert b.uid in claimants;
      }
      assert AloneGoesBy(agents, a, key, fold);
    }
    if a :| a in agents && a.uid == uid && AloneGoesBy(agents, a, key, fold) {
      assert uid in claimants && forall u <- claimants :: u == uid;
    }
  }

  lemma SoleSubjectClaimant(agents: seq<Agent>, fold: Fold, key: string, uid: string)
    ensures Claimants(AllSubjectClaims(agents), key) == {uid} <==>
              exists a <- agents :: a.uid == uid && AloneReachedAt(agents, a, key)
  {
    var claimants := Claimants(AllSubjectClaims(agents), key);
    forall u { ClaimsAreNames(agents, fold, key, u); }
    if claimants == {uid} {
      assert uid in claimants;
      var a :| a in agents && a.uid == uid && ReachedAt(a, key);
      forall b <- agents | ReachedAt(b, key) ensures b.uid == uid {
        assert b.uid in claimants;
      }
      assert AloneReachedAt(agents, a, key);
    }
    if a :| a in agents && a.uid == uid && AloneReachedAt(agents, a, key) {
      assert uid in claimants && forall u <- claimants :: u == uid;
    }
  }

  /** Two agents with different uids both go by the key. */
  ghost predicate SharedName(agents: seq<Agent>, key: string, fold: Fold) {
    exists a <- agents, b <- agents :: a.uid != b.uid && GoesBy(a, key, fold) && GoesBy(b, key, fold)
  }

  lemma SharedByTwo(agents: seq<Agent>, fold: Fold, key: string)
    ensures SharedName(agents, key, fold) <==>
              exists u, v :: u != v && u in Claimants(AllNameClaims(agents, fold), key)
                             && v in Claimants(AllNameClaims(agents, fold), key)
  {
    var claimants := Claimants(AllNameClaims(agents, fold), key);
    forall u { ClaimsAreNames(agents, fold, key, u); }
    if a, b :| a in agents && b in agents && a.uid != b.uid && GoesBy(a, key, fold) && GoesBy(b, key, fold) {
      assert a.uid in claimants && b.uid in claimants;
    }
  }

  /**
   What the tables hold, in terms of the agents: a name leads to the uid of the only agent that goes by it, a
   subject to the uid of the only agent reached at it, and a name is ambiguous exactly when two share it.
   */
  lemma TablesNameTheAgents(agents: seq<Agent>, fold: Fold, names: Index, subjects: Index, key: string, uid: string)
    requires Indexes(names, AllNameClaims(agents, fold)) && Indexes(subjects, AllSubjectClaims(agents))
    ensures key in names.owner && names.owner[key] == uid <==>
              exists a <- agents :: a.uid == uid && AloneGoesBy(agents, a, key, fold)
    ensures key in subjects.owner && subjects.owner[key] == uid <==>
              exists a <- agents :: a.uid == uid && AloneReachedAt(agents, a, key)
    ensures key in names.ambiguous <==> SharedName(agents, key, fold)
  {
    SoleNameClaimant(agents, fold, key, uid);
    SoleSubjectClaimant(agents, fold, key, uid);
    SharedByTwo(agents, fold, key);
  }

  /**
   A named message goes to a subject exactly when one agent alone goes by the name, in any spelling
   that folds alike, is not archived, and has that subject.  It is refused as ambiguous exactly when two
   agents go by it, and as archived exactly when the only one that does is.
   */
  lemma DirectExactlyToTheOnlyClaimant(agents: seq<Agent>, names: Index, to: string, fold: Fold, a: Agent)
    requires Indexes(names, AllNameClaims(agents, fold)) && to != ""
    requires forall x <- agents, y <- agents :: x.uid == y.uid ==> x == y
    requires a in agents
    ensures Resolve(agents, names, to, fold) == Direct(a.uid, a.subject.GetOr("")) <==>
              AloneGoesBy(agents, a, fold(to), fold) && !a.archived && a.subject.GetOr("") != ""
    ensures Resolve(agents, names, to, fold) == Refused("ambiguous_recipient") <==>
              SharedName(agents, fold(to), fold)
    ensures AloneGoesBy(agents, a, fold(to), fold) && a.archived ==>
              Resolve(agents, names, to, fold) == Refused("recipient_archived")
    ensures (forall b <- agents :: !GoesBy(b, fold(to), fold)) ==>
              Resolve(agents, names, to, fold) == Refused("unknown_recipient")
  {
    var key := fold(to);
    SoleNameClaimant(agents, fold, key, a.uid);
    SharedByTwo(agents, fold, key);
    if key in names.owner {
      SoleNameClaimant(agents, fold, key, names.owner[key]);
    }
    if AloneGoesBy(agents, a, key, fold) {
      assert Claimants(AllNameClaims(agents, fold), key) == {a.uid};
      assert names.owner[key] == a.uid;
    }
  }
}
