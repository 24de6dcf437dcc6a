/** The broker's deduplication identifier of a send, scoped to deployment, principal and caller key. */
module Dedupe {
  import opened Wrappers
  import opened Joining
  import opened MissionSnapshots

  type Digest = string -> string

  const UNIT_SEPARATOR := 0x1f as char
  const MAX_NAMESPACE_CHARS: nat := 128
  const MAX_PRINCIPAL_CHARS: nat := 256
  const MAX_WIRE_ID_CHARS: nat := 128

  predicate Within(text: string, limit: nat) {
    0 < |text| <= limit
  }

  function Preimage(namespace: string, principal: string, key: string): string {
    namespace + [UNIT_SEPARATOR] + (principal + [UNIT_SEPARATOR] + key)
  }

  /** None is the refused scope. */
  function DedupeId(namespace: string, principal: string, key: string, digest: Digest): Option<string> {
    if && Within(namespace, MAX_NAMESPACE_CHARS)
       && Within(principal, MAX_PRINCIPAL_CHARS)
       && Within(key, MAX_WIRE_ID_CHARS)
    then Some("fh1-" + digest(Preimage(namespace, principal, key)))
    else None
  }

  /**
   Two scopes share an identifier exactly when they share deployment, principal and key, as long as
   neither deployment nor principal holds the separator; the caller's key may hold anything.
   */
  lemma SameIdExactlyForSameScope(n: string, p: string, k: string, m: string, q: string, l: string, digest: Digest)
    requires digest(Preimage(n, p, k)) == digest(Preimage(m, q, l)) ==> Preimage(n, p, k) == Preimage(m, q, l)
    requires UNIT_SEPARATOR !in n && UNIT_SEPARATOR !in m && UNIT_SEPARATOR !in p && UNIT_SEPARATOR !in q
    requires DedupeId(n, p, k, digest).Some?
    ensures DedupeId(n, p, k, digest) == DedupeId(m, q, l, digest) <==> n == m && p == q && k == l
  {
    var a, b := Preimage(n, p, k), Preimage(m, q, l);
    if DedupeId(n, p, k, digest) == DedupeId(m, q, l, digest) {
      assert ("fh1-" + digest(a))[4..] == digest(a) && ("fh1-" + digest(b))[4..] == digest(b);
      JoinInjective(UNIT_SEPARATOR, n, p + [UNIT_SEPARATOR] + k, m, q + [UNIT_SEPARATOR] + l);
      JoinInjective(UNIT_SEPARATOR, p, k, q, l);
    }
  }

  /** Of scopes in general the condition is needed: a separator in the principal can be taken for the one after it. */
  lemma SeparatorInPrincipalCollides(digest: Digest)
    ensures var sep := [UNIT_SEPARATOR];
            DedupeId("n", "p" + sep + "q", "k", digest) == DedupeId("n", "p", "q" + sep + "k", digest)
            && DedupeId("n", "p", "q" + sep + "k", digest).Some?
  {
    var sep := [UNIT_SEPARATOR];
    assert ("p" + sep + "q") + sep + "k" == "p" + sep + ("q" + sep + "k");
  }

  // ---- the scopes the hub builds

  const DEFAULT_DEPLOYMENT := "agni-candidate"
  const NAMESPACE_PREFIX := "fleet-hub-v1:"

  /** The configured deployment name when it is a proper identifier, else the default. */
  function Deployment(configured: string): string {
    if Identifier(configured) then configured else DEFAULT_DEPLOYMENT
  }

  function DedupeNamespace(configured: string): string {
    NAMESPACE_PREFIX + Deployment(configured)
  }

  datatype Mode = Bearer | Session

  predicate HexDigits(text: string) {
    forall i :: 0 <= i < |text| ==> '0' <= text[i] <= '9' || 'a' <= text[i] <= 'f'
  }

  /** `secret` is the bearer token or the session id; only a prefix of its digest enters the principal. */
  function PrincipalKey(mode: Mode, secret: string, digest: Digest): string
    requires |digest(secret)| == 64
  {
    (if mode.Bearer? then "bearer:" else "session:") + digest(secret)[..24]
  }

  lemma NamespaceHoldsNoSeparator(configured: string)
    ensures UNIT_SEPARATOR !in DedupeNamespace(configured)
  {
    assert Identifier(Deployment(configured));
    assert UNIT_SEPARATOR !in NAMESPACE_PREFIX;
    assert UNIT_SEPARATOR !in Deployment(configured);
  }

  lemma PrincipalHoldsNoSeparator(mode: Mode, secret: string, digest: Digest)
    requires |digest(secret)| == 64 && HexDigits(digest(secret))
    ensures UNIT_SEPARATOR !in PrincipalKey(mode, secret, digest)
    ensures 31 <= |PrincipalKey(mode, secret, digest)| <= 32
  {
    var prefix, rest := if mode.Bearer? then "bearer:" else "session:", digest(secret)[..24];
    assert UNIT_SEPARATOR !in prefix;
    assert UNIT_SEPARATOR !in rest;
  }

  /**
   Two sends of the hub, by whatever principals and under whatever keys, share an identifier exactly when
   they share deployment, principal and key: no principal or deployment it builds can hold the separator.
   */
  lemma SendsShareIdExactlyForSameScope(c: string, p: Mode, a: string, k: string,
                                        d: string, q: Mode, b: string, l: string, digest: Digest)
    requires |digest(a)| == 64 && HexDigits(digest(a)) && |digest(b)| == 64 && HexDigits(digest(b))
    requires var x := Preimage(DedupeNamespace(c), PrincipalKey(p, a, digest), k);
             var y := Preimage(DedupeNamespace(d), PrincipalKey(q, b, digest), l);
             digest(x) == digest(y) ==> x == y
    requires DedupeId(DedupeNamespace(c), PrincipalKey(p, a, digest), k, digest).Some?
    ensures var one := DedupeId(DedupeNamespace(c), PrincipalKey(p, a, digest), k, digest);
            var other := DedupeId(DedupeNamespace(d), PrincipalKey(q, b, digest), l, digest);
            one == other <==>
              && Deployment(c) == Deployment(d) && k == l
              && PrincipalKey(p, a, digest) == PrincipalKey(q, b, digest)
  {
    NamespaceHoldsNoSeparator(c);
    NamespaceHoldsNoSeparator(d);
    PrincipalHoldsNoSeparator(p, a, digest);
    PrincipalHoldsNoSeparator(q, b, digest);
    SameIdExactlyForSameScope(DedupeNamespace(c), PrincipalKey(p, a, digest), k,
                              DedupeNamespace(d), PrincipalKey(q, b, digest), l, digest);
    assert DedupeNamespace(c)[|NAMESPACE_PREFIX|..] == Deployment(c);
    assert DedupeNamespace(d)[|NAMESPACE_PREFIX|..] == Deployment(d);
  }

  /**
   The scope of a send under a key of legal length is refused exactly when the deployment name has more
   than 115 characters: the prefix takes 13 of the 128 that the namespace may have.
   */
  lemma RefusedExactlyForLongDeployments(configured: string, mode: Mode, secret: string, key: string, digest: Digest)
    requires |digest(secret)| == 64 && HexDigits(digest(secret)) && Within(key, MAX_WIRE_ID_CHARS)
    ensures DedupeId(DedupeNamespace(configured), PrincipalKey(mode, secret, digest), key, digest).None? <==>
              |Deployment(configured)| > 115
  {
    PrincipalHoldsNoSeparator(mode, secret, digest);
    assert |NAMESPACE_PREFIX| == 13;
  }

  /** Such a name passes the check on configuration, so every send of that deployment is refused. */
  lemma LongDeploymentIsAcceptedAndRefused(mode: Mode, secret: string, key: string, digest: Digest)
    requires |digest(secret)| == 64 && HexDigits(digest(secret)) && Within(key, MAX_WIRE_ID_CHARS)
    ensures var configured := seq(116, i => 'a');
            && Identifier(configured)
            && DedupeId(DedupeNamespace(configured), PrincipalKey(mode, secret, digest), key, digest).None?
  {
    var configured := seq(116, i => 'a');
    assert Identifier(configured);
    RefusedExactlyForLongDeployments(configured, mode, secret, key, digest);
  }
}
