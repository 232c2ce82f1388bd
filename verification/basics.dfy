/** Small building blocks shared by both fractal engines: an option type,
    powers of two, sums and bags over sequences, the bits of Java `int`
    arithmetic the engines rely on, and AWT colours. */
module Basics {

  datatype Option<+T> = None | Some(value: T)

  /** An opaque AWT colour given by its three channels. */
  datatype Rgb = Rgb(r: int, g: int, b: int)
  {
    predicate Valid() {
      0 <= r < 256 && 0 <= g < 256 && 0 <= b < 256
    }
  }

  /** Where a branch of the given length, leaving (x, y) at the given angle in
      degrees, ends. The source computes it with cos/sin on doubles and rounds
      or truncates to int; the model keeps it uninterpreted. */
  type Projection = (int, int, real, real) -> (int, int)

  const TwoTo32: int := 0x1_0000_0000
  const TwoTo31: int := 0x8000_0000

  /** 2 to the power n. */
  function Pow2(n: nat): (r: nat)
    ensures r >= 1
  {
    if n == 0 then 1 else 2 * Pow2(n - 1)
  }

  /** The value a Java `int` holds after an arithmetic result n wraps around. */
  function ToInt32(n: int): (r: int)
    ensures -TwoTo31 <= r < TwoTo31
    ensures (n - r) % TwoTo32 == 0
  {
    var m := n % TwoTo32;
    if m < TwoTo31 then m else m - TwoTo32
  }

  /** Java's `a / b` on ints, which truncates toward zero (Dafny's `/` is
      Euclidean). Only positive divisors occur in the engines. */
  function JavaDiv(a: int, b: int): (q: int)
    requires b > 0
    ensures a >= 0 ==> 0 <= a - q * b < b
    ensures a < 0 ==> -b < a - q * b <= 0
  {
    if a >= 0 then a / b else -((-a) / b)
  }

  /** Java's `(int) d` cast of a (finite, in-range) double: truncation toward zero. */
  function TruncToInt(d: real): (n: int)
    ensures d >= 0.0 ==> 0 <= n && n as real <= d < n as real + 1.0
    ensures d < 0.0 ==> n <= 0 && n as real - 1.0 < d <= n as real
  {
    if d >= 0.0 then d.Floor else -((-d).Floor)
  }

  /** `Color.getRGB()` of an opaque colour: alpha 255 in the top byte, then
      red, green, blue, read back as a signed 32-bit int. */
  function Argb(c: Rgb): (v: int)
    requires c.Valid()
    ensures -TwoTo31 <= v < 0
  {
    ToInt32(0xFF00_0000 + c.r * 0x1_0000 + c.g * 0x100 + c.b)
  }

  /** The packed value gives back each channel, so distinct colours pack to
      distinct values. */
  lemma ArgbUnpacks(c: Rgb)
    requires c.Valid()
    ensures Argb(c) % 0x100 == c.b
    ensures (Argb(c) / 0x100) % 0x100 == c.g
    ensures (Argb(c) / 0x1_0000) % 0x100 == c.r
  {
    var v := Argb(c);
    assert v == (c.r - 0x100) * 0x1_0000 + c.g * 0x100 + c.b;
    DivModUnique(v, 0x100, (c.r - 0x100) * 0x100 + c.g, c.b);
    DivModUnique((c.r - 0x100) * 0x100 + c.g, 0x100, c.r - 0x100, c.g);
    DivModUnique(v, 0x1_0000, c.r - 0x100, c.g * 0x100 + c.b);
    DivModUnique(c.r - 0x100, 0x100, -1, c.r);
  }

  /** Euclidean division by one or two bytes' worth is determined by
      quotient and remainder. */
  lemma DivModUnique(a: int, d: int, q: int, r: int)
    requires d == 0x100 || d == 0x1_0000
    requires 0 <= r < d && a == q * d + r
    ensures a / d == q && a % d == r
  {
    if d == 0x100 {
      assert a == q * 0x100 + r;
    } else {
      assert a == q * 0x1_0000 + r;
    }
  }

  /** Sum of f over the elements of s. */
  function Sum<T>(s: seq<T>, f: T -> nat): nat
  {
    if |s| == 0 then 0 else f(s[0]) + Sum(s[1..], f)
  }

  /** Multiset union of f over the elements of s. */
  function Bag<T, U>(s: seq<T>, f: T -> multiset<U>): multiset<U>
  {
    if |s| == 0 then multiset{} else f(s[0]) + Bag(s[1..], f)
  }

  /** s without its i-th element: what taking one pending unit leaves behind. */
  function RemoveAt<T>(s: seq<T>, i: nat): (r: seq<T>)
    requires i < |s|
    ensures |r| == |s| - 1
    ensures forall k :: 0 <= k < i ==> r[k] == s[k]
    ensures forall k :: i <= k < |r| ==> r[k] == s[k + 1]
  {
    s[..i] + s[i + 1..]
  }

  /** Sum of the empty sequence. */
  lemma SumEmpty<T>(g: T -> nat)
    ensures Sum([], g) == 0
  {
  }

  lemma SumCons<T>(x: T, s: seq<T>, f: T -> nat)
    ensures Sum([x] + s, f) == f(x) + Sum(s, f)
  {
    assert ([x] + s)[1..] == s;
  }

  lemma BagCons<T, U>(x: T, s: seq<T>, f: T -> multiset<U>)
    ensures Bag([x] + s, f) == f(x) + Bag(s, f)
  {
    assert ([x] + s)[1..] == s;
  }

  lemma {:induction false} SumAppend<T>(a: seq<T>, b: seq<T>, f: T -> nat)
    ensures Sum(a + b, f) == Sum(a, f) + Sum(b, f)
    decreases |a|
  {
    if |a| == 0 {
      assert a + b == b;
    } else {
      assert (a + b)[1..] == a[1..] + b;
      SumAppend(a[1..], b, f);
    }
  }

  lemma {:induction false} BagAppend<T, U>(a: seq<T>, b: seq<T>, f: T -> multiset<U>)
    ensures Bag(a + b, f) == Bag(a, f) + Bag(b, f)
    decreases |a|
  {
    if |a| == 0 {
      assert a + b == b;
    } else {
      assert (a + b)[1..] == a[1..] + b;
      BagAppend(a[1..], b, f);
    }
  }

  /** A bag of nothing but empty contributions is empty. */
  lemma {:induction false} BagOfEmpties<T, U>(s: seq<T>, f: T -> multiset<U>)
    requires forall k :: 0 <= k < |s| ==> f(s[k]) == multiset{}
    ensures Bag(s, f) == multiset{}
    decreases |s|
  {
    if |s| > 0 {
      BagOfEmpties(s[1..], f);
    }
  }

  /** Taking the i-th element out of s removes exactly its share of the sum. */
  lemma {:induction false} SumRemoveAt<T>(s: seq<T>, i: nat, f: T -> nat)
    requires i < |s|
    ensures Sum(RemoveAt(s, i), f) + f(s[i]) == Sum(s, f)
  {
    var front, back := s[..i], s[i + 1..];
    assert s == front + ([s[i]] + back);
    SumAppend(front, [s[i]] + back, f);
    SumCons(s[i], back, f);
    SumAppend(front, back, f);
    assert RemoveAt(s, i) == front + back;
  }

  /** Taking the i-th element out of s removes exactly its share of the bag. */
  lemma {:induction false} BagRemoveAt<T, U>(s: seq<T>, i: nat, f: T -> multiset<U>)
    requires i < |s|
    ensures Bag(RemoveAt(s, i), f) + f(s[i]) == Bag(s, f)
  {
    var front, back := s[..i], s[i + 1..];
    assert s == front + ([s[i]] + back);
    BagAppend(front, [s[i]] + back, f);
    BagCons(s[i], back, f);
    BagAppend(front, back, f);
    assert RemoveAt(s, i) == front + back;
  }
}
