/** Bit strings, most significant bit first, and long division of a bit stream
    by a polynomial over GF(2), one bit at a time. */
module CrcBits {

  type Bits = seq<bool>
  type Byte = b: Bits | |b| == 8 witness [false, false, false, false, false, false, false, false]

  function Zeros(n: nat): (z: Bits)
    ensures |z| == n && forall i :: 0 <= i < n ==> !z[i]
  {
    seq(n, _ => false)
  }

  function Xor(a: Bits, b: Bits): (x: Bits)
    requires |a| == |b|
    ensures |x| == |a| && forall i :: 0 <= i < |a| ==> x[i] == (a[i] != b[i])
  {
    seq(|a|, i requires 0 <= i < |a| => a[i] != b[i])
  }

  function Or(a: Bits, b: Bits): (x: Bits)
    requires |a| == |b|
    ensures |x| == |a| && forall i :: 0 <= i < |a| ==> x[i] == (a[i] || b[i])
  {
    seq(|a|, i requires 0 <= i < |a| => a[i] || b[i])
  }

  function Rev(a: Bits): (r: Bits)
    ensures |r| == |a| && forall i :: 0 <= i < |a| ==> r[i] == a[|a| - 1 - i]
  {
    seq(|a|, i requires 0 <= i < |a| => a[|a| - 1 - i])
  }

  /** `a << k` in a register as wide as `a`. */
  function Shl(a: Bits, k: nat): (r: Bits)
    ensures |r| == |a|
    ensures forall i :: 0 <= i < |a| ==> r[i] == (i + k < |a| && a[i + k])
  {
    seq(|a|, i requires 0 <= i < |a| => i + k < |a| && a[i + k])
  }

  /** `a >> k` in a register as wide as `a`. */
  function Shr(a: Bits, k: nat): (r: Bits)
    ensures |r| == |a|
    ensures forall i :: 0 <= i < |a| ==> r[i] == (i >= k && a[i - k])
  {
    seq(|a|, i requires 0 <= i < |a| => i >= k && a[i - k])
  }

  /** `k` zeros and then `a`. */
  function Pad(k: nat, a: Bits): (r: Bits)
    ensures |r| == k + |a|
    ensures forall i :: 0 <= i < |r| ==> r[i] == (i >= k && a[i - k])
  {
    seq(k + |a|, i requires 0 <= i < k + |a| => i >= k && a[i - k])
  }

  /** `a` and then `k` zeros. */
  function Trail(a: Bits, k: nat): (r: Bits)
    ensures |r| == |a| + k
    ensures forall i :: 0 <= i < |r| ==> r[i] == (i < |a| && a[i])
  {
    seq(|a| + k, i requires 0 <= i < |a| + k => i < |a| && a[i])
  }

  /** `a` in a register of the given width, with nothing above it. */
  function Extend(width: nat, a: Bits): (r: Bits)
    requires |a| <= width
    ensures |r| == width
  {
    Pad(width - |a|, a)
  }

  /** The first `k` bits of `r`, filled up with zeros when `r` is shorter. */
  function Window(r: Bits, k: nat): (t: Bits)
    ensures |t| == k
    ensures forall i :: 0 <= i < k ==> t[i] == (i < |r| && r[i])
  {
    seq(k, i requires 0 <= i < k => i < |r| && r[i])
  }

  lemma ShlShl(a: Bits, j: nat, k: nat)
    ensures Shl(Shl(a, j), k) == Shl(a, j + k)
  {
  }

  lemma ShrShr(a: Bits, j: nat, k: nat)
    ensures Shr(Shr(a, j), k) == Shr(a, j + k)
  {
  }

  lemma RevRev(a: Bits)
    ensures Rev(Rev(a)) == a
  {
  }

  lemma RevXor(a: Bits, b: Bits)
    requires |a| == |b|
    ensures Rev(Xor(a, b)) == Xor(Rev(a), Rev(b))
  {
  }

  lemma RevShr(a: Bits, k: nat)
    ensures Rev(Shr(a, k)) == Shl(Rev(a), k)
  {
  }

  function ToNat(a: Bits): nat {
    if a == [] then 0 else 2 * ToNat(a[..|a| - 1]) + (if a[|a| - 1] then 1 else 0)
  }

  function FromNat(v: nat, k: nat): (a: Bits)
    ensures |a| == k
  {
    if k == 0 then [] else FromNat(v / 2, k - 1) + [v % 2 == 1]
  }

  lemma {:induction false} FromNatToNat(a: Bits)
    ensures FromNat(ToNat(a), |a|) == a
  {
    if a != [] {
      var k := |a| - 1;
      var v := ToNat(a[..k]);
      FromNatToNat(a[..k]);
      assert ToNat(a) == 2 * v + (if a[k] then 1 else 0);
      assert ToNat(a) / 2 == v && (ToNat(a) % 2 == 1) == a[k];
      assert a == a[..k] + [a[k]];
    }
  }

  /** How many bit strings of length `k` there are. */
  function Combos(k: nat): nat {
    if k == 0 then 1 else 2 * Combos(k - 1)
  }

  lemma ByteCombos()
    ensures Combos(8) == 256
  {
    assert Combos(4) == 16;
  }

  lemma {:induction false} BitsRange(a: Bits)
    ensures ToNat(a) < Combos(|a|)
  {
    if a != [] {
      BitsRange(a[..|a| - 1]);
    }
  }

  lemma ByteRange(b: Byte)
    ensures ToNat(b) < 256
  {
    BitsRange(b);
    ByteCombos();
  }

  lemma {:induction false} ToNatFromNat(v: nat, k: nat)
    requires v < Combos(k)
    ensures ToNat(FromNat(v, k)) == v
  {
    if k > 0 {
      ToNatFromNat(v / 2, k - 1);
      var front, a := FromNat(v / 2, k - 1), FromNat(v, k);
      assert a == front + [v % 2 == 1];
      assert a[..k - 1] == front && a[k - 1] == (v % 2 == 1);
    }
  }

  lemma ToNatInjective(a: Bits, b: Bits)
    requires |a| == |b| && ToNat(a) == ToNat(b)
    ensures a == b
  {
    FromNatToNat(a);
    FromNatToNat(b);
  }

  // ---------------------------------------------------------------- division

  /** One bit of long division: the incoming bit meets the top of the
      remainder, the remainder moves up, the divisor is taken off if it fits. */
  function Step(poly: Bits, r: Bits, bit: bool): (r': Bits)
    requires |poly| == |r| >= 1
    ensures |r'| == |r|
  {
    if r[0] != bit then Xor(Shl(r, 1), poly) else Shl(r, 1)
  }

  function Steps(poly: Bits, r: Bits, bits: Bits): (r': Bits)
    requires |poly| == |r| >= 1
    ensures |r'| == |r|
    decreases |bits|
  {
    if bits == [] then r else Steps(poly, Step(poly, r, bits[0]), bits[1..])
  }

  lemma {:induction false} StepsConcat(poly: Bits, r: Bits, a: Bits, b: Bits)
    requires |poly| == |r| >= 1
    ensures Steps(poly, r, a + b) == Steps(poly, Steps(poly, r, a), b)
    decreases |a|
  {
    if a == [] {
      assert a + b == b;
    } else {
      assert (a + b)[1..] == a[1..] + b;
      StepsConcat(poly, Step(poly, r, a[0]), a[1..], b);
    }
  }

  lemma StepsSnoc(poly: Bits, r: Bits, a: Bits, bit: bool)
    requires |poly| == |r| >= 1
    ensures Steps(poly, r, a + [bit]) == Step(poly, Steps(poly, r, a), bit)
  {
    StepsConcat(poly, r, a, [bit]);
  }

  /** Division is linear: remainders of two streams add up bit by bit. */
  lemma {:induction false} StepsLinear(poly: Bits, r: Bits, s: Bits, a: Bits, b: Bits)
    requires |poly| == |r| == |s| >= 1 && |a| == |b|
    ensures Steps(poly, Xor(r, s), Xor(a, b)) == Xor(Steps(poly, r, a), Steps(poly, s, b))
    decreases |a|
  {
    if a != [] {
      var r', s' := Step(poly, r, a[0]), Step(poly, s, b[0]);
      assert Step(poly, Xor(r, s), Xor(a, b)[0]) == Xor(r', s');
      assert Xor(a, b)[1..] == Xor(a[1..], b[1..]);
      StepsLinear(poly, r', s', a[1..], b[1..]);
    }
  }

  /** A stream that always agrees with the top of the remainder only shifts it out. */
  lemma {:induction false} StepsOwnTop(poly: Bits, r: Bits, k: nat)
    requires |poly| == |r| >= 1
    ensures Steps(poly, r, Window(r, k)) == Shl(r, k)
    decreases k
  {
    if k == 0 {
      assert Shl(r, 0) == r;
    } else {
      assert Window(r, k)[1..] == Window(Shl(r, 1), k - 1);
      StepsOwnTop(poly, Shl(r, 1), k - 1);
      assert Shl(Shl(r, 1), k - 1) == Shl(r, k);
    }
  }

  /** The step that a lookup table makes possible: `k` bits at once are a shift
      and the remainder of one `k`-bit stream started from zero. It holds for
      remainders shorter than `k` bits as well. */
  lemma {:induction false} TableStep(poly: Bits, r: Bits, bits: Bits)
    requires |poly| == |r| >= 1
    ensures Steps(poly, r, bits)
         == Xor(Shl(r, |bits|), Steps(poly, Zeros(|r|), Xor(bits, Window(r, |bits|))))
  {
    var top := Window(r, |bits|);
    StepsLinear(poly, r, Zeros(|r|), top, Xor(bits, top));
    assert Xor(r, Zeros(|r|)) == r;
    assert Xor(top, Xor(bits, top)) == bits;
    StepsOwnTop(poly, r, |bits|);
  }

  // ------------------------------------------------- the algebra behind it

  /** The polynomial with leading one and the given rest, moved up against
      the end of a string of the given length. */
  function Divisor(poly: Bits, length: nat): (d: Bits)
    requires length > |poly|
    ensures |d| == length
    ensures forall i :: 0 <= i < length ==>
      d[i] == (var j := i - (length - |poly|); if j >= 0 then poly[j] else j == -1)
  {
    seq(length, i requires 0 <= i < length =>
      var j := i - (length - |poly|); if j >= 0 then poly[j] else j == -1)
  }

  /** A multiple of the divisor moved up by one, with the divisor added or not. */
  function AddMultiple(poly: Bits, multiple: Bits, bit: bool): (r: Bits)
    requires |multiple| >= |poly|
    ensures |r| == |multiple| + 1
  {
    var up := Trail(multiple, 1);
    if bit then Xor(up, Divisor(poly, |up|)) else up
  }

  /** `q` times the divisor, as polynomials over GF(2). */
  function Times(poly: Bits, q: Bits): (m: Bits)
    ensures |m| == |q| + |poly|
  {
    if q == [] then Zeros(|poly|) else AddMultiple(poly, Times(poly, q[..|q| - 1]), q[|q| - 1])
  }

  /** The quotient bits that `Steps` produces from remainder zero. */
  function Quotient(poly: Bits, bits: Bits): (q: Bits)
    requires |poly| >= 1
    ensures |q| == |bits|
  {
    if bits == [] then []
    else
      var front := bits[..|bits| - 1];
      Quotient(poly, front) + [Steps(poly, Zeros(|poly|), front)[0] != bits[|bits| - 1]]
  }

  lemma QuotientSnoc(poly: Bits, bits: Bits, bit: bool)
    requires |poly| >= 1
    ensures Quotient(poly, bits + [bit])
         == Quotient(poly, bits) + [Steps(poly, Zeros(|poly|), bits)[0] != bit]
  {
    assert (bits + [bit])[..|bits|] == bits;
  }

  lemma TimesSnoc(poly: Bits, q: Bits, bit: bool)
    ensures Times(poly, q + [bit]) == AddMultiple(poly, Times(poly, q), bit)
  {
    assert (q + [bit])[..|q|] == q;
  }

  /** What the division loop computes is a remainder: the stream followed by
      one zero per remainder bit is a multiple of the divisor plus the result. */
  lemma {:induction false} StepsIsRemainder(poly: Bits, bits: Bits)
    requires |poly| >= 1
    ensures Trail(bits, |poly|)
         == Xor(Times(poly, Quotient(poly, bits)), Pad(|bits|, Steps(poly, Zeros(|poly|), bits)))
    decreases |bits|
  {
    var n := |poly|;
    if bits == [] {
      assert Trail(bits, n) == Xor(Zeros(n), Pad(0, Zeros(n)));
    } else {
      var front, last := bits[..|bits| - 1], bits[|bits| - 1];
      assert bits == front + [last];
      StepsIsRemainder(poly, front);
      StepsSnoc(poly, Zeros(n), front, last);
      QuotientSnoc(poly, front, last);
      TimesSnoc(poly, Quotient(poly, front), Steps(poly, Zeros(n), front)[0] != last);
      RemainderStep(poly, bits, Times(poly, Quotient(poly, front)), Steps(poly, Zeros(n), front));
    }
  }

  /** The step of `StepsIsRemainder`, on the division done so far. */
  lemma RemainderStep(poly: Bits, bits: Bits, multiple: Bits, r: Bits)
    requires |poly| == |r| >= 1 && |bits| >= 1 && |multiple| == |bits| - 1 + |poly|
    requires Trail(bits[..|bits| - 1], |poly|) == Xor(multiple, Pad(|bits| - 1, r))
    ensures Trail(bits, |poly|)
         == Xor(AddMultiple(poly, multiple, r[0] != bits[|bits| - 1]), Pad(|bits|, Step(poly, r, bits[|bits| - 1])))
  {
    var n, k, last := |poly|, |bits| - 1, bits[|bits| - 1];
    var before, rest := Trail(bits[..k], n), Pad(k, r);
    var right := Xor(AddMultiple(poly, multiple, r[0] != last), Pad(k + 1, Step(poly, r, last)));
    forall i | 0 <= i < k + 1 + n ensures Trail(bits, n)[i] == right[i] {
      if i < k + n {
        assert before[i] == (multiple[i] != rest[i]);
      }
    }
  }

  /** A nonzero multiple of the divisor shows among the bits above the remainder. */
  lemma {:induction false} TimesTopZero(poly: Bits, q: Bits)
    requires forall i :: 0 <= i < |q| ==> !Times(poly, q)[i]
    ensures Times(poly, q) == Zeros(|q| + |poly|)
    decreases |q|
  {
    if q != [] {
      var k := |q| - 1;
      var m := Times(poly, q[..k]);
      forall i | 0 <= i < k ensures !m[i] {
        assert !Times(poly, q)[i];
      }
      TimesTopZero(poly, q[..k]);
      assert !Times(poly, q)[k];
    }
  }

  lemma {:induction false} TimesLinear(poly: Bits, p: Bits, q: Bits)
    requires |p| == |q|
    ensures Times(poly, Xor(p, q)) == Xor(Times(poly, p), Times(poly, q))
    decreases |p|
  {
    if p == [] {
      assert Xor(p, q) == [];
    } else {
      var k := |p| - 1;
      assert Xor(p, q)[..k] == Xor(p[..k], q[..k]);
      TimesLinear(poly, p[..k], q[..k]);
    }
  }

  /** The remainder is the only one: any way of writing the shifted stream as a
      multiple of the divisor plus a remainder-wide rest has this rest. */
  lemma {:induction false} RemainderUnique(poly: Bits, bits: Bits, q: Bits, rest: Bits)
    requires |poly| >= 1 && |q| == |bits| && |rest| == |poly|
    requires Trail(bits, |poly|) == Xor(Times(poly, q), Pad(|bits|, rest))
    ensures rest == Steps(poly, Zeros(|poly|), bits)
  {
    StepsIsRemainder(poly, bits);
    var q0, r0 := Quotient(poly, bits), Steps(poly, Zeros(|poly|), bits);
    TimesLinear(poly, q, q0);
    XorExchange(Times(poly, q), Pad(|bits|, rest), Times(poly, q0), Pad(|bits|, r0));
    assert Times(poly, Xor(q, q0)) == Xor(Pad(|bits|, rest), Pad(|bits|, r0));
    TimesTopZero(poly, Xor(q, q0));
    PadEqual(|bits|, rest, r0);
  }

  lemma XorExchange(a: Bits, b: Bits, c: Bits, d: Bits)
    requires |a| == |b| == |c| == |d| && Xor(a, b) == Xor(c, d)
    ensures Xor(a, c) == Xor(b, d)
  {
    forall i | 0 <= i < |a| ensures Xor(a, c)[i] == Xor(b, d)[i] {
      assert Xor(a, b)[i] == Xor(c, d)[i];
    }
  }

  lemma PadEqual(k: nat, a: Bits, b: Bits)
    requires |a| == |b| && Xor(Pad(k, a), Pad(k, b)) == Zeros(k + |a|)
    ensures a == b
  {
    forall i | 0 <= i < |a| ensures a[i] == b[i] {
      assert !Xor(Pad(k, a), Pad(k, b))[k + i];
    }
  }

  // -------------------------------------------- the augmented-message form

  /** One bit of the augmented form: the incoming bit enters at the bottom. */
  function FeedBit(poly: Bits, r: Bits, bit: bool): (r': Bits)
    requires |poly| == |r| >= 1
    ensures |r'| == |r|
  {
    var moved := r[1..] + [bit];
    if r[0] then Xor(moved, poly) else moved
  }

  function Feed(poly: Bits, r: Bits, bits: Bits): (r': Bits)
    requires |poly| == |r| >= 1
    ensures |r'| == |r|
    decreases |bits|
  {
    if bits == [] then r else Feed(poly, FeedBit(poly, r, bits[0]), bits[1..])
  }

  lemma {:induction false} FeedConcat(poly: Bits, r: Bits, a: Bits, b: Bits)
    requires |poly| == |r| >= 1
    ensures Feed(poly, r, a + b) == Feed(poly, Feed(poly, r, a), b)
    decreases |a|
  {
    if a == [] {
      assert a + b == b;
    } else {
      assert (a + b)[1..] == a[1..] + b;
      FeedConcat(poly, FeedBit(poly, r, a[0]), a[1..], b);
    }
  }

  lemma {:induction false} FeedLinear(poly: Bits, r: Bits, s: Bits, a: Bits, b: Bits)
    requires |poly| == |r| == |s| >= 1 && |a| == |b|
    ensures Feed(poly, Xor(r, s), Xor(a, b)) == Xor(Feed(poly, r, a), Feed(poly, s, b))
    decreases |a|
  {
    if a != [] {
      var r', s' := FeedBit(poly, r, a[0]), FeedBit(poly, s, b[0]);
      assert FeedBit(poly, Xor(r, s), Xor(a, b)[0]) == Xor(r', s');
      assert Xor(a, b)[1..] == Xor(a[1..], b[1..]);
      FeedLinear(poly, r', s', a[1..], b[1..]);
    }
  }

  /** Without incoming bits the two forms are the same. */
  lemma {:induction false} FeedZeros(poly: Bits, r: Bits, k: nat)
    requires |poly| == |r| >= 1
    ensures Feed(poly, r, Zeros(k)) == Steps(poly, r, Zeros(k))
    decreases k
  {
    if k > 0 {
      assert FeedBit(poly, r, false) == Step(poly, r, false);
      assert Zeros(k)[1..] == Zeros(k - 1);
      FeedZeros(poly, Step(poly, r, false), k - 1);
    }
  }

  /** At most a register full of bits fed into zero just sits in the register. */
  lemma {:induction false} FeedFromZero(poly: Bits, bits: Bits)
    requires |bits| <= |poly| && |poly| >= 1
    ensures Feed(poly, Zeros(|poly|), bits) == Extend(|poly|, bits)
    decreases |bits|
  {
    var n := |poly|;
    if bits == [] {
      assert Extend(n, bits) == Zeros(n);
    } else {
      var k := |bits| - 1;
      FeedFromZero(poly, bits[..k]);
      assert bits == bits[..k] + [bits[k]];
      FeedConcat(poly, Zeros(n), bits[..k], [bits[k]]);
      ExtendSnoc(n, bits[..k], bits[k]);
      assert Feed(poly, Extend(n, bits[..k]), [bits[k]]) == FeedBit(poly, Extend(n, bits[..k]), bits[k]);
    }
  }

  lemma ExtendSnoc(n: nat, front: Bits, bit: bool)
    requires |front| < n
    ensures !Extend(n, front)[0]
    ensures Extend(n, front + [bit]) == Extend(n, front)[1..] + [bit]
  {
  }

  /** A bit at the bottom reaches the top after a register full of zeros and
      then acts exactly as an incoming bit of `Step`. */
  lemma {:induction false} FlushOneBit(poly: Bits, r: Bits, bit: bool)
    requires |poly| == |r| >= 1
    ensures Steps(poly, FeedBit(poly, r, bit), Zeros(|poly|))
         == Step(poly, Steps(poly, r, Zeros(|poly|)), bit)
  {
    var n := |poly|;
    var z := Zeros(n);
    var low := Zeros(n - 1) + [bit];
    var r1 := Step(poly, r, false);
    var f := Steps(poly, r, z);
    // the register is the shifted one plus the new bit
    assert FeedBit(poly, r, bit) == Xor(r1, low);
    StepsLinear(poly, r1, low, z, z);
    assert Xor(z, z) == z;
    ZeroCommutes(poly, r, n);
    FlushLowBit(poly, bit);
    assert Step(poly, f, bit) == Xor(Step(poly, f, false), Step(poly, Zeros(n), bit));
  }

  lemma {:induction false} ZeroCommutes(poly: Bits, r: Bits, k: nat)
    requires |poly| == |r| >= 1
    ensures Steps(poly, Step(poly, r, false), Zeros(k)) == Step(poly, Steps(poly, r, Zeros(k)), false)
    decreases k
  {
    if k > 0 {
      assert Zeros(k)[1..] == Zeros(k - 1);
      ZeroCommutes(poly, Step(poly, r, false), k - 1);
    }
  }

  lemma {:induction false} FlushLowBit(poly: Bits, bit: bool)
    requires |poly| >= 1
    ensures Steps(poly, Zeros(|poly| - 1) + [bit], Zeros(|poly|)) == Step(poly, Zeros(|poly|), bit)
  {
    var n := |poly|;
    var low := Zeros(n - 1) + [bit];
    assert Zeros(n) == Zeros(n - 1) + [false];
    StepsConcat(poly, low, Zeros(n - 1), [false]);
    assert Window(low, n - 1) == Zeros(n - 1);
    StepsOwnTop(poly, low, n - 1);
    var top := Shl(low, n - 1);
    assert Shl(top, 1) == Zeros(n) && Shl(Zeros(n), 1) == Zeros(n);
    var one := [false];
    assert one[1..] == [];
    assert Steps(poly, top, one) == Step(poly, top, false);
  }

  lemma {:induction false} FlushFeed(poly: Bits, r: Bits, bits: Bits)
    requires |poly| == |r| >= 1
    ensures Steps(poly, Feed(poly, r, bits), Zeros(|poly|))
         == Steps(poly, Steps(poly, r, Zeros(|poly|)), bits)
    decreases |bits|
  {
    if bits != [] {
      FlushOneBit(poly, r, bits[0]);
      FlushFeed(poly, FeedBit(poly, r, bits[0]), bits[1..]);
    }
  }

  /** For every starting remainder, the augmented form of a message followed by
      a register full of zeros is the plain form started from the flushed remainder. */
  lemma {:induction false} FeedAugmented(poly: Bits, r: Bits, bits: Bits)
    requires |poly| == |r| >= 1
    ensures Feed(poly, r, bits + Zeros(|poly|))
         == Steps(poly, Steps(poly, r, Zeros(|poly|)), bits)
  {
    FeedConcat(poly, r, bits, Zeros(|poly|));
    FeedZeros(poly, Feed(poly, r, bits), |poly|);
    FlushFeed(poly, r, bits);
  }

  /** Started from zero that is the plain remainder of the message. */
  lemma {:induction false} FeedAugmentedFromZero(poly: Bits, bits: Bits)
    requires |poly| >= 1
    ensures Feed(poly, Zeros(|poly|), bits + Zeros(|poly|)) == Steps(poly, Zeros(|poly|), bits)
  {
    var n := |poly|;
    FeedAugmented(poly, Zeros(n), bits);
    StepsOwnTop(poly, Zeros(n), n);
    assert Window(Zeros(n), n) == Zeros(n);
    assert Shl(Zeros(n), n) == Zeros(n);
  }

  /** A register full of bits after the message is accepted (leaves zero) if and
      only if it is the remainder of the message. */
  lemma {:induction false} FeedAccepts(poly: Bits, r: Bits, bits: Bits, tail: Bits)
    requires |poly| == |r| == |tail| >= 1
    ensures Feed(poly, r, bits + tail) == Zeros(|poly|)
        <==> tail == Feed(poly, r, bits + Zeros(|poly|))
  {
    var n := |poly|;
    var z := Zeros(n);
    var mid := Feed(poly, r, bits);
    FeedConcat(poly, r, bits, tail);
    FeedConcat(poly, r, bits, z);
    FeedLinear(poly, mid, z, z, tail);
    assert Xor(mid, z) == mid && Xor(z, tail) == tail;
    FeedFromZero(poly, tail);
    assert Extend(n, tail) == tail;
    var a, sum := Feed(poly, mid, z), Feed(poly, mid, tail);
    assert sum == Xor(a, tail);
    if sum == z {
      forall i | 0 <= i < n ensures tail[i] == a[i] {
        assert !sum[i];
      }
    }
  }

  /** The table step of the augmented form. */
  lemma {:induction false} FeedTableStep(poly: Bits, r: Bits, bits: Bits)
    requires |poly| == |r| >= |bits| && |poly| >= 1
    ensures Feed(poly, r, bits)
         == Xor(Or(Shl(r, |bits|), Extend(|r|, bits)),
                Steps(poly, Zeros(|r|), Window(r, |bits|)))
  {
    var n, k := |r|, |bits|;
    FeedLinear(poly, r, Zeros(n), Zeros(k), bits);
    assert Xor(r, Zeros(n)) == r && Xor(Zeros(k), bits) == bits;
    FeedFromZero(poly, bits);
    FeedZeros(poly, r, k);
    TableStep(poly, r, Zeros(k));
    assert Xor(Zeros(k), Window(r, k)) == Window(r, k);
    ShiftIn(Shl(r, k), Steps(poly, Zeros(n), Window(r, k)), bits);
  }

  /** New bits do not meet any bit of a register shifted far enough. */
  lemma ShiftIn(moved: Bits, s: Bits, bits: Bits)
    requires |bits| <= |moved| == |s|
    requires forall i :: |moved| - |bits| <= i < |moved| ==> !moved[i]
    ensures Xor(Xor(moved, s), Extend(|moved|, bits)) == Xor(Or(moved, Extend(|moved|, bits)), s)
  {
  }
}
