/** Texts put one behind the other so that they can be told apart again. */
module Marking {

  /** A text with its end marked: every character is announced. */
  function Marked(s: string): string {
    if s == "" then "." else ['c', s[0]] + Marked(s[1..])
  }

  lemma {:induction false} MarkedSplits(a: string, x: string, b: string, y: string)
    requires Marked(a) + x == Marked(b) + y
    ensures a == b && x == y
  {
    assert (Marked(a) + x)[0] == Marked(a)[0] && (Marked(b) + y)[0] == Marked(b)[0];
    if a == "" {
      assert ("." + x)[1..] == x && ("." + y)[1..] == y;
    } else {
      var ma, mb := Marked(a[1..]), Marked(b[1..]);
      assert ['c', a[0]] + ma + x == ['c', a[0]] + (ma + x) && ['c', b[0]] + mb + y == ['c', b[0]] + (mb + y);
      assert (['c', a[0]] + (ma + x))[1] == a[0] && (['c', b[0]] + (mb + y))[1] == b[0];
      assert (['c', a[0]] + (ma + x))[2..] == ma + x && (['c', b[0]] + (mb + y))[2..] == mb + y;
      MarkedSplits(a[1..], x, b[1..], y);
      assert a == [a[0]] + a[1..] && b == [b[0]] + b[1..];
    }
  }
}
