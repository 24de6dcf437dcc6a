/**
 Event ids as the SSE wire carries them: "<epoch>-<n>".

 `int()` accepts more spellings than plain decimal digits (surrounding blanks, a plus sign,
 underscores, other digit alphabets).  Those reach the model through `lenient`, an arbitrary
 function every result is quantified over.
 */
module EventIds {
  import opened Wrappers

  type Lenient = string -> Option<nat>

  predicate AllDigits(s: string) {
    forall i :: 0 <= i < |s| ==> '0' <= s[i] <= '9'
  }

  function Decimal(n: nat): (s: string)
    ensures AllDigits(s) && |s| > 0
  {
    if n < 10 then ['0' + n as char] else Decimal(n / 10) + ['0' + (n % 10) as char]
  }

  function DigitsValue(s: string): nat
    requires AllDigits(s)
  {
    if s == [] then 0 else DigitsValue(s[..|s| - 1]) * 10 + (s[|s| - 1] - '0') as nat
  }

  function ParseInt(s: string, lenient: Lenient): Option<nat> {
    if s != [] && AllDigits(s) then Some(DigitsValue(s)) else lenient(s)
  }

  function Format(epoch: string, n: nat): string {
    epoch + "-" + Decimal(n)
  }

  /** The text before and after the last dash, `rsplit("-", 1)`; None when there is no dash. */
  function RSplit(s: string): Option<(string, string)> {
    if s == [] then None
    else if s[|s| - 1] == '-' then Some((s[..|s| - 1], []))
    else match RSplit(s[..|s| - 1])
      case None => None
      case Some((head, tail)) => Some((head, tail + [s[|s| - 1]]))
  }

  function Parse(id: string, lenient: Lenient): Option<(string, nat)> {
    match RSplit(id)
    case None => None
    case Some((epoch, digits)) =>
      match ParseInt(digits, lenient)
      case None => None
      case Some(n) => Some((epoch, n))
  }

  lemma {:induction false} DecimalValue(n: nat)
    ensures DigitsValue(Decimal(n)) == n
  {
    if n >= 10 {
      var s := Decimal(n);
      DecimalValue(n / 10);
      assert s[..|s| - 1] == Decimal(n / 10);
    }
  }

  /** Any text is split at its last dash, whatever stands around it. */
  lemma {:induction false} RSplitAtLastDash(head: string, tail: string)
    requires '-' !in tail
    ensures RSplit(head + "-" + tail) == Some((head, tail))
  {
    var s := head + "-" + tail;
    if tail == [] {
      assert s[..|s| - 1] == head;
    } else {
      var rest := tail[..|tail| - 1];
      RSplitAtLastDash(head, rest);
      assert s[|s| - 1] == tail[|tail| - 1] && tail[|tail| - 1] in tail;
      assert s[..|s| - 1] == head + "-" + rest;
      assert rest + [s[|s| - 1]] == tail;
    }
  }

  lemma {:induction false} RSplitWithoutDash(s: string)
    requires '-' !in s
    ensures RSplit(s) == None
  {
    if s != [] {
      assert s[|s| - 1] in s;
      RSplitWithoutDash(s[..|s| - 1]);
    }
  }

  /** Whatever the epoch text (it may itself hold dashes), an issued id parses back to its parts. */
  lemma FormatParses(epoch: string, n: nat, lenient: Lenient)
    ensures Parse(Format(epoch, n), lenient) == Some((epoch, n))
  {
    RSplitAtLastDash(epoch, Decimal(n));
    DecimalValue(n);
  }
}
