/**
 The redaction of an open JSON field: one traversal, one node budget threaded through all of it.

 A value past the budget or below the last level becomes the truncation marker, one under a sensitive
 key the redaction marker.  Of a container the first 64 entries are kept, a dictionary's sorted by key
 and under their clipped keys, the first entry of each.

 `sensitive` is the verdict on a key; every result holds for any such verdict.
 */
module Redaction {
  import opened Wrappers
  import opened Ordering

  const MAX_OPEN_DEPTH: nat := 6
  const MAX_OPEN_NODES: nat := 512
  const MAX_OPEN_ITEMS: nat := 64
  const MAX_OPEN_KEY_CHARS: nat := 128
  const MAX_OPEN_STRING_CHARS: nat := 2048
  const REDACTED := "[REDACTED]"
  const TRUNCATED := "[TRUNCATED]"
  const UNSUPPORTED := "[UNSUPPORTED]"

  /** How deep a visit may be: containers open down to level 6, and what they hold stands one level below. */
  type Depth = d: int | 0 <= d <= MAX_OPEN_DEPTH + 1

  /** Any value an owner may hand over; `Other` is whatever is not JSON. */
  datatype Json =
    | Null
    | Bool(truth: bool)
    | Int(number: int)
    | Float(finite: real)
    | NonFinite
    | Str(text: string)
    | List(items: seq<Json>)
    | Dict(members: seq<Member>)
    | Other(identity: int)

  /** Dictionaries keep insertion order; a key need not be a string. */
  datatype Key = Name(name: string) | NotText(identity: int)
  datatype Member = Member(key: Key, value: Json)

  /** A value about to be visited: under a raw key, or at a position of a list. */
  datatype Child = Child(key: Option<string>, value: Json)
  datatype Pair = Pair(key: string, value: Json)

  type Verdict = string -> bool

  function Select(members: seq<Member>, room: nat): (pairs: seq<Pair>)
    ensures |pairs| <= room
  {
    if room == 0 || members == [] then []
    else match members[0].key
      case Name(name) => [Pair(name, members[0].value)] + Select(members[1..], room - 1)
      case NotText(_) => Select(members[1..], room)
  }

  function Insert(pair: Pair, sorted: seq<Pair>): (pairs: seq<Pair>)
    ensures |pairs| == |sorted| + 1
  {
    if sorted == [] || LessEq(pair.key, sorted[0].key) then [pair] + sorted
    else [sorted[0]] + Insert(pair, sorted[1..])
  }

  function Sort(pairs: seq<Pair>): (sorted: seq<Pair>)
    ensures |sorted| == |pairs|
  {
    if pairs == [] then [] else Insert(pairs[0], Sort(pairs[1..]))
  }

  function ClipKey(key: string): string {
    Clip(key, MAX_OPEN_KEY_CHARS)
  }

  /** The pairs whose clipped key is not taken by an earlier one. */
  function FirstOfEachClip(pairs: seq<Pair>, taken: set<string>): (kept: seq<Pair>)
    ensures |kept| <= |pairs|
  {
    if pairs == [] then []
    else if ClipKey(pairs[0].key) in taken then FirstOfEachClip(pairs[1..], taken)
    else [pairs[0]] + FirstOfEachClip(pairs[1..], taken + {ClipKey(pairs[0].key)})
  }

  function Chosen(members: seq<Member>): (pairs: seq<Pair>)
    ensures |pairs| <= MAX_OPEN_ITEMS
  {
    FirstOfEachClip(Sort(Select(members, MAX_OPEN_ITEMS)), {})
  }

  function PairChildren(pairs: seq<Pair>): (children: seq<Child>)
    ensures |children| == |pairs|
    ensures forall i :: 0 <= i < |pairs| ==> children[i] == Child(Some(pairs[i].key), pairs[i].value)
  {
    seq(|pairs|, i requires 0 <= i < |pairs| => Child(Some(pairs[i].key), pairs[i].value))
  }

  function ListChildren(items: seq<Json>): (children: seq<Child>)
    ensures |children| == |items|
    ensures forall i :: 0 <= i < |items| ==> children[i] == Child(None, items[i])
  {
    seq(|items|, i requires 0 <= i < |items| => Child(None, items[i]))
  }

  predicate IsContainer(v: Json) {
    v.List? || v.Dict?
  }

  function Children(v: Json): (children: seq<Child>)
    requires IsContainer(v)
    ensures |children| <= MAX_OPEN_ITEMS
  {
    if v.List? then ListChildren(if |v.items| <= MAX_OPEN_ITEMS then v.items else v.items[..MAX_OPEN_ITEMS])
    else PairChildren(Chosen(v.members))
  }

  function Rebuild(pairs: seq<Pair>, values: seq<Json>): (members: seq<Member>)
    requires |pairs| == |values|
    ensures |members| == |pairs|
    ensures forall i :: 0 <= i < |pairs| ==> members[i] == Member(Name(ClipKey(pairs[i].key)), values[i])
  {
    seq(|pairs|, i requires 0 <= i < |pairs| => Member(Name(ClipKey(pairs[i].key)), values[i]))
  }

  /** The container v with its visited children in place. */
  function Assemble(v: Json, values: seq<Json>): Json
    requires IsContainer(v) && |values| == |Children(v)|
  {
    if v.List? then List(values) else Dict(Rebuild(Chosen(v.members), values))
  }

  function ClipText(text: string): string {
    if |text| <= MAX_OPEN_STRING_CHARS then text else text[..MAX_OPEN_STRING_CHARS] + TRUNCATED
  }

  function Leaf(v: Json): Json
    requires !IsContainer(v)
  {
    match v
    case Str(text) => Str(ClipText(text))
    case NonFinite => Str(UNSUPPORTED)
    case Other(_) => Str(UNSUPPORTED)
    case _ => v
  }

  predicate Hides(key: Option<string>, sensitive: Verdict) {
    key.Some? && sensitive(key.value)
  }

  /** The value left in place of v, and the node count after it; `nodes` is the count before. */
  function Visit(v: Json, depth: Depth, key: Option<string>, nodes: nat, sensitive: Verdict): (Json, nat)
    decreases MAX_OPEN_DEPTH + 2 - depth, 0
  {
    if nodes + 1 > MAX_OPEN_NODES then (Str(TRUNCATED), nodes + 1)
    else if Hides(key, sensitive) then (Str(REDACTED), nodes + 1)
    else if depth > MAX_OPEN_DEPTH then (Str(TRUNCATED), nodes + 1)
    else if !IsContainer(v) then (Leaf(v), nodes + 1)
    else
      var (values, after) := VisitAll(Children(v), depth + 1, nodes + 1, sensitive);
      (Assemble(v, values), after)
  }

  function VisitAll(children: seq<Child>, depth: Depth, nodes: nat, sensitive: Verdict): (r: (seq<Json>, nat))
    ensures |r.0| == |children|
    decreases MAX_OPEN_DEPTH + 2 - depth, 1 + |children|
  {
    if children == [] then ([], nodes)
    else
      var (first, mid) := Visit(children[0].value, depth, children[0].key, nodes, sensitive);
      var (rest, after) := VisitAll(children[1..], depth, mid, sensitive);
      ([first] + rest, after)
  }

  function Redact(v: Json, sensitive: Verdict): Json {
    Visit(v, 0, None, 0, sensitive).0
  }
}
