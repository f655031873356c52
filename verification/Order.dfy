/** Lexicographic order on code sequences: how Python compares strings and how
    C++ compares wide strings. */
module Order {

  predicate LexLess(a: seq<int>, b: seq<int>) {
    b != [] && (a == [] || a[0] < b[0] || (a[0] == b[0] && LexLess(a[1..], b[1..])))
  }

  function Codes(s: string): (r: seq<int>)
    ensures |r| == |s| && forall i :: 0 <= i < |s| ==> r[i] == s[i] as int
  {
    seq(|s|, i requires 0 <= i < |s| => s[i] as int)
  }

  /** Python's `<` on strings. */
  predicate Before(a: string, b: string) {
    LexLess(Codes(a), Codes(b))
  }

  lemma {:induction false} LexIsTotal(a: seq<int>, b: seq<int>)
    ensures LexLess(a, b) || LexLess(b, a) || a == b
    ensures !(LexLess(a, b) && LexLess(b, a)) && !LexLess(a, a)
  {
    if a != [] && b != [] {
      LexIsTotal(a[1..], b[1..]);
      LexIsTotal(a[1..], a[1..]);
      assert a == [a[0]] + a[1..] && b == [b[0]] + b[1..];
    } else if a != [] {
      LexIsTotal(a[1..], a[1..]);
    }
  }

  lemma {:induction false} LexIsTransitive(a: seq<int>, b: seq<int>, c: seq<int>)
    ensures LexLess(a, b) && LexLess(b, c) ==> LexLess(a, c)
  {
    if a != [] && b != [] && c != [] {
      LexIsTransitive(a[1..], b[1..], c[1..]);
    }
  }

  lemma CodesInjective(a: string, b: string)
    requires Codes(a) == Codes(b)
    ensures a == b
  {
    forall i | 0 <= i < |a|
      ensures a[i] == b[i]
    {
      assert Codes(a)[i] == Codes(b)[i];
    }
  }

  /** `Before` is a strict total order on strings. */
  lemma BeforeIsOrder(a: string, b: string, c: string)
    ensures !Before(a, a) && !(Before(a, b) && Before(b, a))
    ensures Before(a, b) || Before(b, a) || a == b
    ensures Before(a, b) && Before(b, c) ==> Before(a, c)
  {
    LexIsTotal(Codes(a), Codes(b));
    LexIsTransitive(Codes(a), Codes(b), Codes(c));
    LexIsTotal(Codes(a), Codes(a));
    if Codes(a) == Codes(b) {
      CodesInjective(a, b);
    }
  }

  /** Sequences with heads of one length are compared by head, then by tail. */
  lemma {:induction false} LexOfConcat(a: seq<int>, x: seq<int>, b: seq<int>, y: seq<int>)
    requires |a| == |b|
    ensures LexLess(a + x, b + y) <==> LexLess(a, b) || (a == b && LexLess(x, y))
  {
    if a == [] {
      assert a + x == x && b + y == y;
    } else {
      LexOfConcat(a[1..], x, b[1..], y);
      assert (a + x)[1..] == a[1..] + x && (b + y)[1..] == b[1..] + y;
      assert a == [a[0]] + a[1..] && b == [b[0]] + b[1..];
    }
  }

  lemma BeforeOfConcat(a: string, x: string, b: string, y: string)
    requires |a| == |b|
    ensures Before(a + x, b + y) <==> Before(a, b) || (a == b && Before(x, y))
  {
    assert Codes(a + x) == Codes(a) + Codes(x) && Codes(b + y) == Codes(b) + Codes(y);
    LexOfConcat(Codes(a), Codes(x), Codes(b), Codes(y));
    if Codes(a) == Codes(b) {
      CodesInjective(a, b);
    }
  }
}
