/**
 Shift registers with linear feedback, over an arbitrary word type.

 The theory behind a CRC uses only a handful of algebraic laws of the word operations, so it is developed here
 for any operations obeying them; module Crc32 supplies the 32-bit ones.
 */
module LinearRegister {

  datatype Register<!W> = Register(
    step: W -> W,          // shift left by one bit and reduce
    left: W -> W,          // shift left by one bit without reducing
    plus: (W, W) -> W,     // exclusive or
    zero: W,
    top: W,                // the word with only the top bit set
    isTop: W -> bool,      // is the top bit set?
    isOdd: W -> bool,      // is the bottom bit set?
    width: nat)

  function Iterate<W>(f: W -> W, c: W, k: nat): W
    decreases k
  {
    if k == 0 then c else Iterate(f, f(c), k - 1)
  }

  /** One step of bit-serial division: the message bit enters at the top. */
  function BitStep<W>(R: Register<W>, r: W, m: bool): W {
    R.step(if m then R.plus(r, R.top) else r)
  }

  function Feed<W>(R: Register<W>, r: W, bits: seq<bool>): W
    decreases |bits|
  {
    if bits == [] then r else Feed(R, BitStep(R, r, bits[0]), bits[1..])
  }

  /** The first k bits of a word, from the top. */
  function WordBits<W>(R: Register<W>, w: W, k: nat): (s: seq<bool>)
    ensures |s| == k
    decreases k
  {
    if k == 0 then [] else [R.isTop(w)] + WordBits(R, R.left(w), k - 1)
  }

  ghost predicate Identity<W(!new)>(R: Register<W>) {
    forall a :: R.plus(a, R.zero) == a && R.plus(R.zero, a) == a
  }

  ghost predicate SelfInverse<W(!new)>(R: Register<W>) {
    forall a, b :: R.plus(a, b) == R.zero <==> a == b
  }

  // The two laws below are named at each point, so that a proof uses them only where it says so.

  ghost predicate Commutes<W>(R: Register<W>, a: W, b: W) {
    R.plus(a, b) == R.plus(b, a)
  }

  ghost predicate Associates<W>(R: Register<W>, a: W, b: W, c: W) {
    R.plus(R.plus(a, b), c) == R.plus(a, R.plus(b, c))
  }

  ghost predicate Abelian<W(!new)>(R: Register<W>) {
    && (forall a, b :: Commutes(R, a, b))
    && (forall a, b, c :: Associates(R, a, b, c))
  }

  ghost predicate Group<W(!new)>(R: Register<W>) {
    Identity(R) && SelfInverse(R) && Abelian(R)
  }

  ghost predicate Linear<W(!new)>(R: Register<W>) {
    && (forall a, b :: R.step(R.plus(a, b)) == R.plus(R.step(a), R.step(b)))
    && (forall a :: R.step(a) == R.zero <==> a == R.zero)
  }

  ghost predicate Reduces<W(!new)>(R: Register<W>) {
    && (forall a :: !R.isTop(a) ==> R.step(a) == R.left(a))
    && (forall a :: R.isTop(a) ==> !R.isTop(R.plus(a, R.top)))
    && (forall a :: R.left(R.plus(a, R.top)) == R.left(a))
  }

  ghost predicate Marks<W(!new)>(R: Register<W>) {
    && R.width > 0
    && R.isOdd(R.step(R.top))
    && (forall a :: !R.isOdd(R.step(a)) ==> R.step(a) == R.left(a))
    && (forall a, k: nat :: k < R.width && Iterate(R.left, a, k) == R.zero ==> !R.isOdd(a))
  }

  /** Everything a word type and its operations must satisfy. */
  ghost predicate Lawful<W(!new)>(R: Register<W>) {
    Group(R) && Linear(R) && Reduces(R) && Marks(R)
  }

  lemma Interchange<W(!new)>(R: Register<W>, a: W, b: W, c: W, d: W)
    requires Abelian(R)
    ensures R.plus(R.plus(a, b), R.plus(c, d)) == R.plus(R.plus(a, c), R.plus(b, d))
  {
    assert Associates(R, a, b, R.plus(c, d)) && Associates(R, a, c, R.plus(b, d));
    assert Associates(R, b, c, d) && Associates(R, c, b, d) && Commutes(R, b, c);
  }

  lemma Transpose<W(!new)>(R: Register<W>, a: W, b: W, c: W)
    requires Group(R)
    ensures R.plus(a, b) == c <==> b == R.plus(a, c)
    ensures R.plus(a, c) == R.plus(b, c) <==> a == b
  {
    assert Associates(R, a, a, b) && Associates(R, a, a, c);
    assert Associates(R, a, c, c) && Associates(R, b, c, c);
  }

  // ---------------------------------------------------------------------------------------------
  // Iteration
  // ---------------------------------------------------------------------------------------------

  lemma {:induction false} IterateAdd<W>(f: W -> W, c: W, j: nat, k: nat)
    ensures Iterate(f, c, j + k) == Iterate(f, Iterate(f, c, j), k)
    decreases j
  {
    if j == 0 {
    } else {
      IterateAdd(f, f(c), j - 1, k);
    }
  }

  lemma {:induction false} IterateLinear<W(!new)>(R: Register<W>, a: W, b: W, k: nat)
    requires Linear(R)
    ensures Iterate(R.step, R.plus(a, b), k) == R.plus(Iterate(R.step, a, k), Iterate(R.step, b, k))
    decreases k
  {
    if k == 0 {
    } else {
      IterateLinear(R, R.step(a), R.step(b), k - 1);
    }
  }

  lemma {:induction false} IterateKernel<W(!new)>(R: Register<W>, a: W, k: nat)
    requires Linear(R)
    ensures Iterate(R.step, a, k) == R.zero <==> a == R.zero
    decreases k
  {
    if k == 0 {
    } else {
      IterateKernel(R, R.step(a), k - 1);
    }
  }

  lemma IterateInjective<W(!new)>(R: Register<W>, a: W, b: W, k: nat)
    requires Group(R) && Linear(R)
    ensures Iterate(R.step, a, k) == Iterate(R.step, b, k) <==> a == b
  {
    IterateLinear(R, a, b, k);
    IterateKernel(R, R.plus(a, b), k);
  }

  lemma {:induction false} WordBitsAdd<W>(R: Register<W>, w: W, j: nat, k: nat)
    ensures WordBits(R, w, j + k) == WordBits(R, w, j) + WordBits(R, Iterate(R.left, w, j), k)
    decreases j
  {
    if j == 0 {
    } else {
      WordBitsAdd(R, R.left(w), j - 1, k);
    }
  }

  /** The bits of a message whose symbols are bytes, or anything else that has bits. */
  function Flatten<T>(f: T -> seq<bool>, s: seq<T>): seq<bool> {
    if s == [] then [] else f(s[0]) + Flatten(f, s[1..])
  }

  lemma {:induction false} FlattenAppend<T>(f: T -> seq<bool>, a: seq<T>, b: seq<T>)
    ensures Flatten(f, a + b) == Flatten(f, a) + Flatten(f, b)
  {
    if a == [] {
      assert a + b == b;
    } else {
      assert (a + b)[0] == a[0] && (a + b)[1..] == a[1..] + b;
      FlattenAppend(f, a[1..], b);
      assert Flatten(f, a + b) == f(a[0]) + (Flatten(f, a[1..]) + Flatten(f, b));
    }
  }

  /** The remainder left by a message, one symbol at a time. */
  lemma FeedNext<W, T>(R: Register<W>, f: T -> seq<bool>, r: W, s: seq<T>, k: nat)
    requires k < |s|
    ensures Feed(R, r, Flatten(f, s[..k + 1])) == Feed(R, Feed(R, r, Flatten(f, s[..k])), f(s[k]))
  {
    assert s[..k + 1] == s[..k] + [s[k]];
    FlattenAppend(f, s[..k], [s[k]]);
    assert Flatten(f, [s[k]]) == f(s[k]);
    FeedAppend(R, r, Flatten(f, s[..k]), f(s[k]));
  }

  lemma TwoSymbols<W, T>(R: Register<W>, f: T -> seq<bool>, w: W, b: seq<T>)
    requires |b| == 2
    requires f(b[0]) == WordBits(R, w, 8)
    requires f(b[1]) == WordBits(R, Iterate(R.left, w, 8), 8)
    ensures Flatten(f, b) == WordBits(R, w, 16)
  {
    WordBitsAdd(R, w, 8, 8);
    assert Flatten(f, b[1..]) == f(b[1]);
  }

  /** Four symbols of eight bits each that spell out a word. */
  lemma FourSymbols<W, T>(R: Register<W>, f: T -> seq<bool>, w: W, b: seq<T>)
    requires |b| == 4
    requires f(b[0]) == WordBits(R, w, 8)
    requires f(b[1]) == WordBits(R, Iterate(R.left, w, 8), 8)
    requires f(b[2]) == WordBits(R, Iterate(R.left, w, 16), 8)
    requires f(b[3]) == WordBits(R, Iterate(R.left, w, 24), 8)
    ensures Flatten(f, b) == WordBits(R, w, 32)
  {
    WordBitsAdd(R, w, 16, 16);
    IterateAdd(R.left, w, 16, 8);
    TwoSymbols(R, f, w, b[..2]);
    TwoSymbols(R, f, Iterate(R.left, w, 16), b[2..]);
    FlattenAppend(f, b[..2], b[2..]);
    assert b == b[..2] + b[2..];
  }

  // ---------------------------------------------------------------------------------------------
  // Feeding messages
  // ---------------------------------------------------------------------------------------------

  function XorBits(u: seq<bool>, v: seq<bool>): (d: seq<bool>)
    requires |u| == |v|
    ensures |d| == |u| && forall i :: 0 <= i < |u| ==> d[i] == (u[i] != v[i])
  {
    if u == [] then [] else [u[0] != v[0]] + XorBits(u[1..], v[1..])
  }

  lemma {:induction false} FeedAppend<W>(R: Register<W>, r: W, u: seq<bool>, v: seq<bool>)
    ensures Feed(R, r, u + v) == Feed(R, Feed(R, r, u), v)
    decreases |u|
  {
    if u == [] {
      assert u + v == v;
    } else {
      FeedAppend(R, BitStep(R, r, u[0]), u[1..], v);
      assert (u + v)[1..] == u[1..] + v;
    }
  }

  lemma BitStepLinear<W(!new)>(R: Register<W>, r: W, s: W, m: bool, n: bool)
    requires Group(R) && Linear(R)
    ensures BitStep(R, R.plus(r, s), m != n) == R.plus(BitStep(R, r, m), BitStep(R, s, n))
  {
    var x, y := if m then R.top else R.zero, if n then R.top else R.zero;
    Interchange(R, r, x, s, y);
  }

  /** Division is linear over messages of equal length. */
  lemma {:induction false} FeedLinear<W(!new)>(R: Register<W>, r: W, s: W, u: seq<bool>, v: seq<bool>)
    requires Group(R) && Linear(R) && |u| == |v|
    ensures Feed(R, R.plus(r, s), XorBits(u, v)) == R.plus(Feed(R, r, u), Feed(R, s, v))
    decreases |u|
  {
    if u == [] {
    } else {
      BitStepLinear(R, r, s, u[0], v[0]);
      FeedLinear(R, BitStep(R, r, u[0]), BitStep(R, s, v[0]), u[1..], v[1..]);
      assert XorBits(u, v)[1..] == XorBits(u[1..], v[1..]);
    }
  }

  ghost predicate AllZero(d: seq<bool>) {
    forall i :: 0 <= i < |d| ==> !d[i]
  }

  /** Zero bits never hide a difference. */
  lemma {:induction false} FeedZeros<W(!new)>(R: Register<W>, r: W, d: seq<bool>)
    requires Linear(R) && AllZero(d)
    ensures Feed(R, r, d) == R.zero <==> r == R.zero
    decreases |d|
  {
    if d == [] {
    } else {
      FeedZeros(R, R.step(r), d[1..]);
    }
  }

  /** Nor does any message hide a difference between the registers it was fed to. */
  lemma FeedInjective<W(!new)>(R: Register<W>, r: W, s: W, u: seq<bool>)
    requires Group(R) && Linear(R)
    ensures Feed(R, r, u) == Feed(R, s, u) <==> r == s
  {
    FeedLinear(R, r, s, u, u);
    FeedZeros(R, R.plus(r, s), XorBits(u, u));
  }

  /** Mixing a word into the register is feeding its top bit and mixing in the rest one place higher. */
  lemma AbsorbBit<W(!new)>(R: Register<W>, s: W, w: W)
    requires Lawful(R)
    ensures R.step(R.plus(s, w)) == R.plus(BitStep(R, s, R.isTop(w)), R.left(w))
  {
    if R.isTop(w) {
      Interchange(R, s, R.top, w, R.top);
    }
  }

  lemma {:induction false} AbsorbWord<W(!new)>(R: Register<W>, s: W, w: W, k: nat)
    requires Lawful(R)
    ensures Iterate(R.step, R.plus(s, w), k) == R.plus(Feed(R, s, WordBits(R, w, k)), Iterate(R.left, w, k))
    decreases k
  {
    if k == 0 {
    } else {
      AbsorbBit(R, s, w);
      AbsorbWord(R, BitStep(R, s, R.isTop(w)), R.left(w), k - 1);
      assert WordBits(R, w, k)[1..] == WordBits(R, R.left(w), k - 1);
    }
  }

  /**
   Feeding k bits in one go: if mixing the bits w into r leaves `low`, whose first k bits are zero, and `high`,
   then the k steps move `low` and reduce `high`.
   */
  lemma FeedTogether<W(!new)>(R: Register<W>, r: W, w: W, low: W, high: W, k: nat)
    requires Lawful(R)
    requires R.plus(r, w) == R.plus(low, high)
    requires Iterate(R.left, w, k) == R.zero && AllZero(WordBits(R, low, k))
    ensures Feed(R, r, WordBits(R, w, k)) == R.plus(Iterate(R.left, low, k), Iterate(R.step, high, k))
  {
    AbsorbWord(R, r, w, k);
    IterateLinear(R, low, high, k);
    AbsorbWord(R, R.zero, low, k);
    FeedZeros(R, R.zero, WordBits(R, low, k));
  }

  lemma Iterate8<W>(f: W -> W, c: W)
    ensures Iterate(f, c, 8) == f(f(f(f(f(f(f(f(c))))))))
  {
    IterateAdd(f, c, 4, 4);
    assert Iterate(f, c, 4) == f(f(f(f(c))));
  }

  lemma WordBits8<W>(R: Register<W>, w: W)
    ensures var x := R.left(R.left(R.left(R.left(w))));
      WordBits(R, w, 8) ==
        [R.isTop(w), R.isTop(R.left(w)), R.isTop(R.left(R.left(w))), R.isTop(R.left(R.left(R.left(w)))),
         R.isTop(x), R.isTop(R.left(x)), R.isTop(R.left(R.left(x))), R.isTop(R.left(R.left(R.left(x))))]
  {
    var x := R.left(R.left(R.left(R.left(w))));
    assert WordBits(R, x, 4) ==
        [R.isTop(x), R.isTop(R.left(x)), R.isTop(R.left(R.left(x))), R.isTop(R.left(R.left(R.left(x))))];
    assert WordBits(R, w, 8) ==
        [R.isTop(w), R.isTop(R.left(w)), R.isTop(R.left(R.left(w))), R.isTop(R.left(R.left(R.left(w))))]
        + WordBits(R, x, 4);
  }

  // ---------------------------------------------------------------------------------------------
  // Burst errors
  // ---------------------------------------------------------------------------------------------

  /** A register cleared within fewer steps than its width, by whatever bits, held nothing in its low bits. */
  lemma {:induction false} ClearedIsHigh<W(!new)>(R: Register<W>, r: W, d: seq<bool>)
    requires Lawful(R) && |d| < R.width
    requires Feed(R, r, d) == R.zero
    ensures Iterate(R.left, r, |d|) == R.zero
    decreases |d|
  {
    if d == [] {
    } else {
      ClearedIsHigh(R, BitStep(R, r, d[0]), d[1..]);
      assert BitStep(R, r, d[0]) == R.left(r);
    }
  }

  /** d is zero outside the window of `width` bits that starts at p, but not zero inside it. */
  ghost predicate IsBurst(d: seq<bool>, p: nat, width: nat) {
    && p < |d| && d[p]
    && AllZero(d[..p])
    && (forall i :: p + width <= i < |d| ==> !d[i])
  }

  /** Every burst no longer than the register leaves a non-zero remainder. */
  lemma BurstRemainder<W(!new)>(R: Register<W>, d: seq<bool>, p: nat)
    requires Lawful(R)
    requires IsBurst(d, p, R.width)
    ensures Feed(R, R.zero, d) != R.zero
  {
    var rest := d[p + 1..];
    var k := if |rest| < R.width then |rest| else R.width - 1;
    var seed := R.step(R.top);
    assert d == d[..p] + ([true] + (rest[..k] + rest[k..]));
    FeedAppend(R, R.zero, d[..p], [true] + (rest[..k] + rest[k..]));
    FeedZeros(R, R.zero, d[..p]);
    assert BitStep(R, R.zero, true) == seed;
    assert ([true] + (rest[..k] + rest[k..]))[1..] == rest[..k] + rest[k..];
    FeedAppend(R, seed, rest[..k], rest[k..]);
    FeedZeros(R, Feed(R, seed, rest[..k]), rest[k..]);
    if Feed(R, R.zero, d) == R.zero {
      ClearedIsHigh(R, seed, rest[..k]);
      assert false;
    }
  }

  /** Two messages whose difference is a burst leave different remainders, from any start. */
  lemma BurstDetected<W(!new)>(R: Register<W>, r: W, u: seq<bool>, v: seq<bool>, p: nat)
    requires Lawful(R)
    requires |u| == |v| && IsBurst(XorBits(u, v), p, R.width)
    ensures Feed(R, r, u) != Feed(R, r, v)
  {
    FeedLinear(R, r, r, u, v);
    BurstRemainder(R, XorBits(u, v), p);
  }
}
