/** Texts joined by a separator that the first of them does not contain. */
module Joining {
  /** The joined text determines both parts. */
  lemma {:induction false} JoinInjective(separator: char, a: string, x: string, b: string, y: string)
    requires separator !in a && separator !in b
    requires a + [separator] + x == b + [separator] + y
    ensures a == b && x == y
  {
    var whole := a + [separator] + x;
    assert a != [] ==> whole[0] == a[0];
    assert b != [] ==> whole[0] == b[0];
    if a == [] {
      assert whole[0] == separator;
      assert whole[1..] == x && whole[1..] == y;
    } else {
      assert whole[1..] == a[1..] + [separator] + x && whole[1..] == b[1..] + [separator] + y;
      JoinInjective(separator, a[1..], x, b[1..], y);
      assert a == [whole[0]] + a[1..] && b == [whole[0]] + b[1..];
    }
  }
}
