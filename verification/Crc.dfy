/** The three checksum computers of `crc.hpp`: one bit at a time, one byte at a
    time through a table, and the augmented-message form. */
module Crc {
  import opened CrcBits

  /** A stored unsigned value. The type that holds a checksum may be wider than
      the checksum: `sig` are the bits that count, `junk` what lies above them. */
  datatype Word = Word(junk: Bits, sig: Bits) {
    function Whole(): (r: Bits)
      ensures |r| == |junk| + |sig|
      ensures forall i :: 0 <= i < |r| ==> r[i] == (if i < |junk| then junk[i] else sig[i - |junk|])
    {
      seq(|junk| + |sig|, i requires 0 <= i < |junk| + |sig| => if i < |junk| then junk[i] else sig[i - |junk|])
    }

    function Xor'(w: Word): Word
      requires |junk| == |w.junk| && |sig| == |w.sig|
    {
      Word(Xor(junk, w.junk), Xor(sig, w.sig))
    }

    function Shl'(k: nat): (r: Word)
      ensures |r.junk| == |junk| && |r.sig| == |sig|
    {
      Split(|junk|, Shl(Whole(), k))
    }

    function Shr'(k: nat): (r: Word)
      ensures |r.junk| == |junk| && |r.sig| == |sig|
    {
      Split(|junk|, Shr(Whole(), k))
    }

    /** `value & sig_bits` */
    function Masked(): Word {
      Word(Zeros(|junk|), sig)
    }

    /** The conversion to `unsigned char`. */
    function LowByte(): (b: Byte)
      requires |junk| + |sig| >= 8
    {
      LowBits(Whole())
    }
  }

  function LowBits(whole: Bits): (b: Byte)
    requires |whole| >= 8
    ensures forall i :: 0 <= i < 8 ==> b[i] == whole[|whole| - 8 + i]
  {
    seq(8, i requires 0 <= i < 8 => whole[|whole| - 8 + i])
  }

  function Split(above: nat, whole: Bits): (w: Word)
    requires above <= |whole|
    ensures |w.junk| == above && |w.sig| == |whole| - above
  {
    Word(whole[..above], seq(|whole| - above, i requires 0 <= i < |whole| - above => whole[above + i]))
  }

  lemma SplitWhole(above: nat, whole: Bits)
    requires above <= |whole|
    ensures Split(above, whole).Whole() == whole
  {
  }

  /** Shifting up never brings junk into the bits that count. */
  lemma ShlSig(w: Word, k: nat)
    ensures w.Shl'(k).sig == Shl(w.sig, k)
  {
    var whole := w.Whole();
    forall i | 0 <= i < |w.sig| ensures w.Shl'(k).sig[i] == Shl(w.sig, k)[i] {
      assert Shl(whole, k)[|w.junk| + i] == (|w.junk| + i + k < |whole| && whole[|w.junk| + i + k]);
    }
  }

  /** Shifting down stays clean when there is no junk. */
  lemma ShrClean(w: Word, k: nat)
    requires w == w.Masked()
    ensures w.Shr'(k) == Word(w.junk, Shr(w.sig, k))
  {
    var whole, r := w.Whole(), w.Shr'(k);
    forall i | 0 <= i < |w.sig| ensures r.sig[i] == Shr(w.sig, k)[i] {
      assert r.sig[i] == Shr(whole, k)[|w.junk| + i];
    }
    assert r.junk == w.junk;
  }

  /** The template or constructor parameters, as stored. */
  datatype Params = Params(poly: Word, init: Word, final: Word, rftIn: bool, rftRem: bool) {
    ghost predicate Valid() {
      && Fits(poly) && Fits(init) && Fits(final)
      && |poly.sig| >= 1 && |poly.junk| + |poly.sig| >= 8
    }

    /** A value of the type that holds this checksum. */
    predicate Fits(w: Word) {
      |w.junk| == |poly.junk| && |w.sig| == |poly.sig|
    }
  }

  /** The order in which the bits of a byte are divided, and by symmetry the
      dividend whose remainder belongs at byte `b` of the table. */
  function Key(reflect: bool, b: Byte): (k: Byte) {
    if reflect then Rev(b) else b
  }

  /** The message as the bit stream that is divided. */
  function Stream(rftIn: bool, msg: seq<Byte>): (s: Bits)
    ensures |s| == 8 * |msg|
  {
    if msg == [] then [] else Stream(rftIn, msg[..|msg| - 1]) + Key(rftIn, msg[|msg| - 1])
  }

  /** The remainder of a message by its definition: divide its bit stream. */
  function Remainder(p: Params, msg: seq<Byte>): (r: Bits)
    requires p.Valid()
    ensures |r| == |p.poly.sig|
  {
    Steps(p.poly.sig, p.init.sig, Stream(p.rftIn, msg))
  }

  /** What is done to a remainder at the end: reflect it if asked, then xor. */
  function Finish(p: Params, rem: Bits): (r: Word)
    requires p.Valid() && |rem| == |p.poly.sig|
  {
    Word(Zeros(|p.poly.junk|), Xor(if p.rftRem then Rev(rem) else rem, p.final.sig))
  }

  function Checksum(p: Params, msg: seq<Byte>): (r: Word)
    requires p.Valid()
  {
    Finish(p, Remainder(p, msg))
  }

  lemma StreamStep(poly: Bits, start: Bits, rftIn: bool, msg: seq<Byte>, i: nat)
    requires |poly| == |start| >= 1 && i < |msg|
    ensures Steps(poly, start, Stream(rftIn, msg[..i + 1]))
         == Steps(poly, Steps(poly, start, Stream(rftIn, msg[..i])), Key(rftIn, msg[i]))
  {
    assert msg[..i + 1][..i] == msg[..i];
    StepsConcat(poly, start, Stream(rftIn, msg[..i]), Key(rftIn, msg[i]));
  }

  /** `reflector<Bits>::reflect`: the bits that count, in opposite order. */
  method Reflect(x: Word) returns (r: Word)
    ensures r == Word(Zeros(|x.junk|), Rev(x.sig))
  {
    var n := |x.sig|;
    var reflection := Zeros(n);
    var y := x;
    var i := 0;
    ReflectStart(x);
    while i < n
      invariant 0 <= i <= n && |y.sig| == n
      invariant y.Whole() == Shr(x.Whole(), i)
      invariant reflection == Rev(x.sig)[..i] + Zeros(n - i)
    {
      LastBit(x, y, i);
      ReflectStep(x, y, i);
      OneMore(Rev(x.sig), i);
      if y.sig[n - 1] {
        reflection := reflection[i := true];
      }
      y := y.Shr'(1);
      i := i + 1;
    }
    r := Word(Zeros(|x.junk|), reflection);
    assert reflection == Rev(x.sig);
  }

  lemma ReflectStart(x: Word)
    ensures x.Whole() == Shr(x.Whole(), 0)
    ensures Zeros(|x.sig|) == Rev(x.sig)[..0] + Zeros(|x.sig|)
  {
  }

  lemma LastBit(x: Word, y: Word, i: nat)
    requires i < |x.sig| == |y.sig| && y.Whole() == Shr(x.Whole(), i)
    ensures y.sig[|x.sig| - 1] == Rev(x.sig)[i]
  {
    hide Rev, Shr;
    assert y.Whole()[|y.Whole()| - 1] == y.sig[|x.sig| - 1];
    assert x.Whole()[|x.Whole()| - 1 - i] == x.sig[|x.sig| - 1 - i];
  }

  lemma ReflectStep(x: Word, y: Word, i: nat)
    requires i < |x.sig| == |y.sig| && y.Whole() == Shr(x.Whole(), i)
    ensures y.Shr'(1).Whole() == Shr(x.Whole(), i + 1)
  {
    hide Shr;
    ShrShr(x.Whole(), i, 1);
    SplitWhole(|y.junk|, Shr(y.Whole(), 1));
  }

  lemma OneMore(turned: Bits, i: nat)
    requires i < |turned|
    ensures var n := |turned|;
            var now, next := turned[..i] + Zeros(n - i), turned[..i + 1] + Zeros(n - i - 1);
            next == (if turned[i] then now[i := true] else now)
  {
  }

  /** The top bit that counts, flipped by an incoming one. */
  function Flip(w: Word, bit: bool): Word
    requires |w.sig| >= 1
  {
    w.(sig := w.sig[0 := w.sig[0] != bit])
  }

  /** The step of a division on stored values, as both loops write it. */
  lemma DivideStep(poly: Word, w: Word, bit: bool)
    requires |poly.sig| == |w.sig| >= 1 && |poly.junk| == |w.junk|
    ensures var f := Flip(w, bit);
            && (!bit ==> f == w)
            && f.sig[0] == (w.sig[0] != bit)
            && (if f.sig[0] then f.Shl'(1).Xor'(poly) else f.Shl'(1)).sig == Step(poly.sig, w.sig, bit)
  {
    var f := Flip(w, bit);
    ShlSig(f, 1);
    assert Shl(f.sig, 1) == Shl(w.sig, 1);
  }

  // ------------------------------------------------------------- one bit at a time

  class CrcBasic {
    const p: Params
    var rem: Word

    ghost predicate Valid() reads this {
      p.Valid() && p.Fits(rem)
    }

    constructor (p: Params)
      requires p.Valid()
      ensures Valid() && this.p == p && rem == p.init
    {
      this.p := p;
      rem := p.init;
    }

    method Reset(newRem: Word)
      requires p.Valid() && p.Fits(newRem)
      modifies this
      ensures Valid() && rem == newRem
    {
      rem := newRem;
    }

    method ProcessBit(bit: bool)
      requires Valid()
      modifies this
      ensures Valid() && rem.sig == Step(p.poly.sig, old(rem.sig), bit)
    {
      DivideStep(p.poly, rem, bit);
      rem := Flip(rem, bit);
      var doPolyDiv := rem.sig[0];
      rem := rem.Shl'(1);
      if doPolyDiv {
        rem := rem.Xor'(p.poly);
      }
    }

    /** The low `count` bits of the byte, upper ones first. */
    method ProcessBits(byte: Byte, count: nat)
      requires Valid() && count <= 8
      modifies this
      ensures Valid() && rem.sig == Steps(p.poly.sig, old(rem.sig), Low(byte, count))
    {
      hide Steps, Step, Low;
      ghost var wanted := Steps(p.poly.sig, rem.sig, Low(byte, count));
      var bits := Shl(byte, 8 - count);
      var i := count;
      while i > 0
        invariant 0 <= i <= count && Valid() && bits == Shl(byte, 8 - i)
        invariant Steps(p.poly.sig, rem.sig, Low(byte, i)) == wanted
      {
        NextBit(p.poly.sig, rem.sig, byte, i);
        ProcessBit(bits[0]);
        bits := Shl(bits, 1);
        i := i - 1;
      }
      NoBits(p.poly.sig, rem.sig, Low(byte, 0));
    }

    method ProcessByte(byte: Byte)
      requires Valid()
      modifies this
      ensures Valid() && rem.sig == Steps(p.poly.sig, old(rem.sig), Key(p.rftIn, byte))
    {
      var w := Word([], byte);
      if p.rftIn {
        w := Reflect(w);
      }
      assert Low(w.sig, 8) == w.sig;
      ProcessBits(w.sig, 8);
    }

    method ProcessBlock(bytes: seq<Byte>)
      requires Valid()
      modifies this
      ensures Valid() && rem.sig == Steps(p.poly.sig, old(rem.sig), Stream(p.rftIn, bytes))
    {
      hide Steps, Stream, Key;
      ghost var start := rem.sig;
      var i := 0;
      NoBits(p.poly.sig, start, Stream(p.rftIn, bytes[..i]));
      while i < |bytes|
        invariant 0 <= i <= |bytes| && Valid()
        invariant rem.sig == Steps(p.poly.sig, start, Stream(p.rftIn, bytes[..i]))
      {
        StreamStep(p.poly.sig, start, p.rftIn, bytes, i);
        ProcessByte(bytes[i]);
        i := i + 1;
      }
      assert bytes[..i] == bytes;
    }

    method GetChecksum() returns (r: Word)
      requires Valid()
      ensures r == Finish(p, rem.sig)
    {
      var out := rem;
      if p.rftRem {
        out := Reflect(rem);
      }
      r := out.Xor'(p.final).Masked();
    }
  }

  /** The low `count` bits of a byte. */
  function Low(byte: Byte, count: nat): (r: Bits)
    requires count <= 8
    ensures |r| == count
  {
    seq(count, i requires 0 <= i < count => byte[8 - count + i])
  }

  lemma NoBits(poly: Bits, r: Bits, bits: Bits)
    requires |poly| == |r| >= 1 && bits == []
    ensures Steps(poly, r, bits) == r
  {
  }

  lemma NextBit(poly: Bits, r: Bits, byte: Byte, k: nat)
    requires |poly| == |r| >= 1 && 0 < k <= 8
    ensures var bits := Shl(byte, 8 - k);
            && Steps(poly, r, Low(byte, k)) == Steps(poly, Step(poly, r, bits[0]), Low(byte, k - 1))
            && Shl(bits, 1) == Shl(byte, 8 - (k - 1))
  {
    assert Low(byte, k)[1..] == Low(byte, k - 1);
    ShlShl(byte, 8 - k, 1);
  }

  // ------------------------------------------------------------- through a table

  /** What the table must hold for byte `b`: the remainder of one byte from
      zero, both sides bit-reversed when input is reflected. */
  function Entry(poly: Bits, reflect: bool, b: Byte): (r: Bits)
    requires |poly| >= 1
    ensures |r| == |poly|
  {
    var r := Steps(poly, Zeros(|poly|), Key(reflect, b));
    if reflect then Rev(r) else r
  }

  /** `crc_table_t`: the lookup table shared by all computers with one divisor. */
  class CrcTable {
    const poly: Word
    const reflect: bool
    const table: array<Word>
    var didInit: bool

    ghost predicate Shaped() reads table {
      && |poly.sig| >= 1 && |poly.junk| + |poly.sig| >= 8
      && table.Length == 256
      && forall k :: 0 <= k < 256 ==> |table[k].junk| == |poly.junk| && |table[k].sig| == |poly.sig|
    }

    /** The entry for `b` is right; a reflected one has nothing above it. */
    ghost predicate Holds(b: Byte)
      requires Shaped()
      reads table
    {
      ByteRange(b);
      var e := table[ToNat(b)];
      e.sig == Entry(poly.sig, reflect, b) && (reflect ==> e == e.Masked())
    }

    ghost predicate Valid() reads this, table {
      Shaped() && (didInit ==> forall b: Byte :: Holds(b))
    }

    constructor (poly: Word, reflect: bool)
      requires |poly.sig| >= 1 && |poly.junk| + |poly.sig| >= 8
      ensures Valid() && fresh(table) && !didInit
      ensures this.poly == poly && this.reflect == reflect
    {
      this.poly, this.reflect := poly, reflect;
      table := new Word[256](_ => Word(Zeros(|poly.junk|), Zeros(|poly.sig|)));
      didInit := false;
    }

    method InitTable()
      requires Valid()
      modifies this, table
      ensures Valid() && didInit
    {
      if didInit {
        return;
      }
      var d := 0;
      while d < 256
        invariant 0 <= d <= 256 && Shaped()
        invariant forall b: Byte :: ToNat(Key(reflect, b)) < d ==> Holds(b)
      {
        var dividend: Byte := FromNat(d, 8);
        ByteCombos();
        ToNatFromNat(d, 8);
        var remainder := Divide(dividend);
        var index, entry := Place(dividend, remainder);
        SetEntry(index, entry, d);
        d := d + 1;
      }
      forall b: Byte ensures Holds(b) {
        ByteRange(Key(reflect, b));
      }
      didInit := true;
      assert forall b: Byte :: Holds(b);
    }

    /** The inner loop of `init_table`: the remainder of one byte from zero. */
    method Divide(dividend: Byte) returns (r: Word)
      requires |poly.sig| >= 1
      ensures |r.junk| == |poly.junk| && |r.sig| == |poly.sig|
      ensures r.sig == Steps(poly.sig, Zeros(|poly.sig|), dividend)
    {
      ghost var zero := Zeros(|poly.sig|);
      r := Word(Zeros(|poly.junk|), Zeros(|poly.sig|));
      var k := 0;
      while k < 8
        invariant 0 <= k <= 8
        invariant |r.junk| == |poly.junk| && |r.sig| == |poly.sig|
        invariant r.sig == Steps(poly.sig, zero, dividend[..k])
      {
        assert dividend[..k + 1] == dividend[..k] + [dividend[k]];
        StepsSnoc(poly.sig, zero, dividend[..k], dividend[k]);
        DivideStep(poly, r, dividend[k]);
        if dividend[k] {
          r := Flip(r, true);
        }
        if r.sig[0] {
          r := r.Shl'(1);
          r := r.Xor'(poly);
        } else {
          r := r.Shl'(1);
        }
        k := k + 1;
      }
      assert dividend[..8] == dividend;
    }

    /** Where a remainder goes in the table, and in which order of bits. */
    method Place(dividend: Byte, remainder: Word) returns (index: Byte, entry: Word)
      requires |poly.sig| >= 1 && |remainder.junk| == |poly.junk|
      requires remainder.sig == Steps(poly.sig, Zeros(|poly.sig|), dividend)
      ensures Key(reflect, index) == dividend && |entry.junk| == |poly.junk|
      ensures entry.sig == Entry(poly.sig, reflect, index)
      ensures reflect ==> entry == entry.Masked()
    {
      index, entry := dividend, remainder;
      if reflect {
        var w := Reflect(Word([], dividend));
        index := w.sig;
        RevRev(dividend);
        entry := Reflect(remainder);
      }
    }

    method SetEntry(index: Byte, entry: Word, ghost d: nat)
      requires Shaped() && |entry.junk| == |poly.junk|
      requires ToNat(Key(reflect, index)) == d < 256
      requires entry.sig == Entry(poly.sig, reflect, index)
      requires reflect ==> entry == entry.Masked()
      requires forall b: Byte :: ToNat(Key(reflect, b)) < d ==> Holds(b)
      modifies table
      ensures Shaped()
      ensures forall b: Byte :: ToNat(Key(reflect, b)) <= d ==> Holds(b)
    {
      hide ToNat, Key, Entry, Rev, Zeros;
      ByteRange(index);
      table[ToNat(index)] := entry;
      forall b: Byte | ToNat(Key(reflect, b)) <= d ensures Holds(b) {
        if b != index {
          OtherEntry(reflect, b, index);
          assert old(Holds(b));
        }
      }
    }
  }

  lemma OtherEntry(reflect: bool, a: Byte, b: Byte)
    requires a != b
    ensures ToNat(a) != ToNat(b) && ToNat(Key(reflect, a)) != ToNat(Key(reflect, b))
    ensures ToNat(a) < 256
  {
    ByteRange(a);
    RevRev(a);
    RevRev(b);
    if ToNat(a) == ToNat(b) {
      ToNatInjective(a, b);
    }
    if ToNat(Key(reflect, a)) == ToNat(Key(reflect, b)) {
      ToNatInjective(Key(reflect, a), Key(reflect, b));
    }
  }

  class CrcOptimal {
    const p: Params
    const crcTable: CrcTable
    var rem: Word

    /** The shared table serves this computer's divisor and has been filled. */
    ghost predicate TableReady() reads crcTable, crcTable.table {
      && crcTable.Valid() && crcTable.didInit
      && crcTable.poly == p.poly && crcTable.reflect == p.rftIn
    }

    ghost predicate Valid() reads this, crcTable, crcTable.table {
      && p.Valid() && p.Fits(rem) && TableReady()
      && (p.rftIn ==> rem == rem.Masked())
    }

    /** The remainder proper. It is stored bit-reversed when input is reflected. */
    ghost function Rem(): (r: Bits)
      reads this
    {
      if p.rftIn then Rev(rem.sig) else rem.sig
    }

    constructor (p: Params, crcTable: CrcTable)
      requires p.Valid() && crcTable.Valid()
      requires crcTable.poly == p.poly && crcTable.reflect == p.rftIn
      modifies crcTable, crcTable.table
      ensures Valid() && this.p == p && this.crcTable == crcTable
      ensures Rem() == p.init.sig
    {
      this.p := p;
      this.crcTable := crcTable;
      rem := p.init;
      new;
      if p.rftIn {
        var r := Reflect(p.init);
        rem := r;
        RevRev(p.init.sig);
      }
      crcTable.InitTable();
    }

    method Reset(newRem: Word)
      requires Valid() && p.Fits(newRem)
      modifies this
      ensures Valid() && Rem() == newRem.sig
    {
      rem := newRem;
      if p.rftIn {
        rem := Reflect(newRem);
        RevRev(newRem.sig);
      }
    }

    /** The loop body of `process_block`. */
    method Round(byte: Byte)
      requires Valid()
      modifies this
      ensures Valid() && Rem() == Steps(p.poly.sig, old(Rem()), Key(p.rftIn, byte))
    {
      var byteIndex := Index(p.rftIn, rem, byte);
      ByteRange(byteIndex);
      assert crcTable.Holds(byteIndex);
      var entry := crcTable.table[ToNat(byteIndex)];
      TableByte(p, rem, byte, entry);
      rem := if p.rftIn then rem.Shr'(8) else rem.Shl'(8);
      rem := rem.Xor'(entry);
    }

    method ProcessBlock(bytes: seq<Byte>)
      requires Valid()
      modifies this
      ensures Valid() && Rem() == Steps(p.poly.sig, old(Rem()), Stream(p.rftIn, bytes))
    {
      ghost var start := Rem();
      var i := 0;
      while i < |bytes|
        invariant 0 <= i <= |bytes| && Valid()
        invariant Rem() == Steps(p.poly.sig, start, Stream(p.rftIn, bytes[..i]))
      {
        StreamStep(p.poly.sig, start, p.rftIn, bytes, i);
        Round(bytes[i]);
        i := i + 1;
      }
      assert bytes[..i] == bytes;
    }

    method GetChecksum() returns (r: Word)
      requires Valid()
      ensures r == Finish(p, Rem())
    {
      var out := rem;
      if p.rftRem != p.rftIn {
        out := Reflect(rem);
      }
      RevRev(rem.sig);
      r := out.Xor'(p.final).Masked();
    }
  }

  /** `crc_helper::index`: the byte compared with the end of the remainder that
      leaves next, moved up to a whole byte when the remainder is shorter. */
  function Index(reflect: bool, rem: Word, byte: Byte): (k: Byte)
    requires |rem.junk| + |rem.sig| >= 8
  {
    var n := |rem.sig|;
    Xor(byte, if reflect then rem.LowByte()
              else if n > 8 then rem.Shr'(n - 8).LowByte()
              else Shl(rem.LowByte(), 8 - n))
  }

  /** One round of the table loop advances the remainder by one byte of the
      stream, in both storage orders and for every width. */
  lemma {:induction false} TableByte(p: Params, rem: Word, byte: Byte, entry: Word)
    requires p.Valid() && p.Fits(rem) && p.Fits(entry)
    requires entry.sig == Entry(p.poly.sig, p.rftIn, Index(p.rftIn, rem, byte))
    requires p.rftIn ==> rem == rem.Masked() && entry == entry.Masked()
    ensures var next := (if p.rftIn then rem.Shr'(8) else rem.Shl'(8)).Xor'(entry);
            if p.rftIn then
              && next == next.Masked()
              && Rev(next.sig) == Steps(p.poly.sig, Rev(rem.sig), Rev(byte))
            else
              next.sig == Steps(p.poly.sig, rem.sig, byte)
  {
    hide Steps, Index, Rev, Xor, Shl, Shr, Zeros, Window;
    if p.rftIn {
      TableReflected(p.poly.sig, rem, byte, entry);
    } else {
      IndexStraight(rem, byte);
      TableStep(p.poly.sig, rem.sig, byte);
      ShlSig(rem, 8);
    }
  }

  /** The same with everything reversed: what moves out moves out at the other end. */
  lemma TableReflected(poly: Bits, rem: Word, byte: Byte, entry: Word)
    requires |poly| == |rem.sig| == |entry.sig| >= 1 && |rem.junk| == |entry.junk|
    requires |rem.junk| + |rem.sig| >= 8 && rem == rem.Masked() && entry == entry.Masked()
    requires entry.sig == Entry(poly, true, Index(true, rem, byte))
    ensures rem.Shr'(8).Xor'(entry).junk == rem.junk
    ensures Rev(rem.Shr'(8).Xor'(entry).sig) == Steps(poly, Rev(rem.sig), Rev(byte))
  {
    hide Steps, Index, Rev, Shl, Shr, Window;
    var zero, index := Zeros(|poly|), Index(true, rem, byte);
    IndexReflected(rem, byte);
    TableStep(poly, Rev(rem.sig), Rev(byte));
    ShrClean(rem, 8);
    assert Xor(rem.junk, entry.junk) == rem.junk;
    RevXor(Shr(rem.sig, 8), entry.sig);
    RevShr(rem.sig, 8);
    RevRev(Steps(poly, zero, Rev(index)));
  }

  lemma IndexReflected(rem: Word, byte: Byte)
    requires |rem.junk| + |rem.sig| >= 8 && rem == rem.Masked()
    ensures Rev(Index(true, rem, byte)) == Xor(Rev(byte), Window(Rev(rem.sig), 8))
  {
    var whole, low := rem.Whole(), rem.LowByte();
    forall i | 0 <= i < 8 ensures low[7 - i] == Window(Rev(rem.sig), 8)[i] {
      assert low[7 - i] == whole[|whole| - 1 - i];
    }
  }

  lemma IndexStraight(rem: Word, byte: Byte)
    requires |rem.junk| + |rem.sig| >= 8
    ensures Index(false, rem, byte) == Xor(byte, Window(rem.sig, 8))
  {
    var n, whole := |rem.sig|, rem.Whole();
    if n > 8 {
      TopByte(rem);
    } else {
      assert Shl(rem.LowByte(), 8 - n) == Window(rem.sig, 8);
    }
  }

  // ------------------------------------------------------------- the augmented form

  method AugmentedCrc(crcTable: CrcTable, buffer: seq<Byte>, initial: Word) returns (r: Word)
    requires crcTable.Valid() && !crcTable.reflect && |crcTable.poly.sig| >= 8
    requires |initial.junk| == |crcTable.poly.junk| && |initial.sig| == |crcTable.poly.sig|
    modifies crcTable, crcTable.table
    ensures crcTable.Valid()
    ensures r == Word(Zeros(|initial.junk|), Feed(crcTable.poly.sig, initial.sig, Stream(false, buffer)))
  {
    ghost var poly := crcTable.poly.sig;
    var rem := initial;
    crcTable.InitTable();
    var i := 0;
    while i < |buffer|
      invariant 0 <= i <= |buffer|
      invariant |rem.junk| == |initial.junk| && |rem.sig| == |initial.sig|
      invariant crcTable.Valid() && crcTable.didInit
      invariant rem.sig == Feed(poly, initial.sig, Stream(false, buffer[..i]))
    {
      FeedStep(poly, initial.sig, buffer, i);
      rem := AugmentedRound(crcTable, rem, buffer[i]);
      i := i + 1;
    }
    assert buffer[..i] == buffer;
    r := rem.Masked();
  }

  /** The loop body of `augmented_crc`. */
  method AugmentedRound(crcTable: CrcTable, rem: Word, byte: Byte) returns (r: Word)
    requires crcTable.Valid() && crcTable.didInit && !crcTable.reflect
    requires |rem.junk| == |crcTable.poly.junk| && |rem.sig| == |crcTable.poly.sig| >= 8
    ensures |r.junk| == |rem.junk| && r.sig == Feed(crcTable.poly.sig, rem.sig, byte)
  {
    var byteIndex := rem.Shr'(|rem.sig| - 8).LowByte();
    TopByte(rem);
    ByteRange(byteIndex);
    assert crcTable.Holds(byteIndex);
    var entry := crcTable.table[ToNat(byteIndex)];
    AugmentedByte(crcTable.poly.sig, rem, byte, entry);
    r := OrByte(rem.Shl'(8), byte).Xor'(entry);
  }

  lemma FeedStep(poly: Bits, start: Bits, msg: seq<Byte>, i: nat)
    requires |poly| == |start| >= 1 && i < |msg|
    ensures Feed(poly, start, Stream(false, msg[..i + 1]))
         == Feed(poly, Feed(poly, start, Stream(false, msg[..i])), msg[i])
  {
    assert msg[..i + 1][..i] == msg[..i];
    FeedConcat(poly, start, Stream(false, msg[..i]), msg[i]);
  }

  /** `value |= byte` */
  function OrByte(w: Word, byte: Byte): (r: Word)
    requires |w.sig| >= 8
    ensures |r.sig| == |w.sig|
  {
    w.(sig := Or(w.sig, Extend(|w.sig|, byte)))
  }

  lemma AugmentedByte(poly: Bits, rem: Word, byte: Byte, entry: Word)
    requires |poly| == |rem.sig| == |entry.sig| >= 8 && |rem.junk| == |entry.junk|
    requires entry.sig == Steps(poly, Zeros(|poly|), Window(rem.sig, 8))
    ensures OrByte(rem.Shl'(8), byte).Xor'(entry).sig == Feed(poly, rem.sig, byte)
  {
    ShlSig(rem, 8);
    var up := rem.Shl'(8);
    assert OrByte(up, byte).Xor'(entry).sig == Xor(Or(up.sig, Extend(|poly|, byte)), entry.sig);
    FeedTableStep(poly, rem.sig, byte);
  }

  lemma TopByte(w: Word)
    requires |w.sig| >= 8
    ensures w.Shr'(|w.sig| - 8).LowByte() == Window(w.sig, 8)
  {
    SplitWhole(|w.junk|, Shr(w.Whole(), |w.sig| - 8));
    TopBits(w);
  }

  lemma TopBits(w: Word)
    requires |w.sig| >= 8
    ensures LowBits(Shr(w.Whole(), |w.sig| - 8)) == Window(w.sig, 8)
  {
  }

  // ------------------------------------------------------------- the agreements

  /** The bitwise computer over a message that arrives in blocks. */
  method RunBasic(p: Params, blocks: seq<seq<Byte>>) returns (r: Word)
    requires p.Valid()
    ensures r == Checksum(p, Flatten(blocks))
  {
    var computer := new CrcBasic(p);
    RemainderOfNothing(p, blocks);
    var i := 0;
    while i < |blocks|
      invariant 0 <= i <= |blocks| && computer.Valid()
      invariant computer.rem.sig == Remainder(p, Flatten(blocks[..i]))
    {
      RemainderBlock(p, blocks, i);
      computer.ProcessBlock(blocks[i]);
      i := i + 1;
    }
    assert blocks[..i] == blocks;
    r := computer.GetChecksum();
  }

  /** The table-driven computer over the same: the same checksum. */
  method RunOptimal(p: Params, blocks: seq<seq<Byte>>) returns (r: Word)
    requires p.Valid()
    ensures r == Checksum(p, Flatten(blocks))
  {
    var crcTable := new CrcTable(p.poly, p.rftIn);
    var computer := new CrcOptimal(p, crcTable);
    RemainderOfNothing(p, blocks);
    var i := 0;
    while i < |blocks|
      invariant 0 <= i <= |blocks| && computer.Valid()
      invariant computer.Rem() == Remainder(p, Flatten(blocks[..i]))
    {
      RemainderBlock(p, blocks, i);
      computer.ProcessBlock(blocks[i]);
      i := i + 1;
    }
    assert blocks[..i] == blocks;
    r := computer.GetChecksum();
  }

  function Flatten<T>(blocks: seq<seq<T>>): seq<T> {
    if blocks == [] then [] else Flatten(blocks[..|blocks| - 1]) + blocks[|blocks| - 1]
  }

  lemma RemainderOfNothing(p: Params, blocks: seq<seq<Byte>>)
    requires p.Valid()
    ensures Remainder(p, Flatten(blocks[..0])) == p.init.sig
  {
  }

  lemma RemainderBlock(p: Params, blocks: seq<seq<Byte>>, i: nat)
    requires p.Valid() && i < |blocks|
    ensures Remainder(p, Flatten(blocks[..i + 1]))
         == Steps(p.poly.sig, Remainder(p, Flatten(blocks[..i])), Stream(p.rftIn, blocks[i]))
  {
    assert blocks[..i + 1][..i] == blocks[..i];
    StreamConcat(p.rftIn, Flatten(blocks[..i]), blocks[i]);
    StepsConcat(p.poly.sig, p.init.sig, Stream(p.rftIn, Flatten(blocks[..i])), Stream(p.rftIn, blocks[i]));
  }

  lemma {:induction false} StreamConcat(rftIn: bool, a: seq<Byte>, b: seq<Byte>)
    ensures Stream(rftIn, a + b) == Stream(rftIn, a) + Stream(rftIn, b)
    decreases |b|
  {
    if b == [] {
      assert a + b == a;
    } else {
      var front := b[..|b| - 1];
      assert (a + b)[..|a + b| - 1] == a + front;
      StreamConcat(rftIn, a, front);
    }
  }

  // ------------------------------------------------------------- what a checksum is

  /** The bits of a message in the order of division: byte after byte, each from
      its top bit down, or from its bottom bit up when the input is reflected. */
  lemma {:induction false} StreamBits(rftIn: bool, msg: seq<Byte>, i: nat, j: nat)
    requires i < |msg| && j < 8
    ensures Stream(rftIn, msg)[8 * i + j] == msg[i][if rftIn then 7 - j else j]
    decreases |msg|
  {
    if i < |msg| - 1 {
      StreamBits(rftIn, msg[..|msg| - 1], i, j);
    }
  }

  /** The checksum of any message under any parameters, bit by bit: the remainder
      that is left when the polynomial is divided into the message, with the
      initial value added to its first bits; from the other end if the remainder
      is reflected; the final value added; nothing above it. `rest` can be
      nothing else, since a division has one remainder. */
  lemma {:induction false} ChecksumBits(p: Params, msg: seq<Byte>, q: Bits, rest: Bits)
    requires p.Valid() && |q| == 8 * |msg| && |rest| == |p.poly.sig|
    requires Trail(Xor(Stream(p.rftIn, msg), Window(p.init.sig, 8 * |msg|)), |p.poly.sig|)
          == Xor(Times(p.poly.sig, q), Pad(8 * |msg|, rest))
    ensures var n, sum := |p.poly.sig|, Checksum(p, msg);
            var rem := Xor(Shl(p.init.sig, 8 * |msg|), rest);
            && |sum.sig| == n && sum.junk == Zeros(|p.poly.junk|)
            && forall i :: 0 <= i < n ==>
                 sum.sig[i] == (rem[if p.rftRem then n - 1 - i else i] != p.final.sig[i])
  {
    hide Remainder, Finish, Times, Stream, Trail, Pad, Xor, Shl, Window, Zeros;
    RemainderIs(p, msg, q, rest);
    FinishBits(p, Remainder(p, msg));
  }

  lemma {:induction false} RemainderIs(p: Params, msg: seq<Byte>, q: Bits, rest: Bits)
    requires p.Valid() && |q| == 8 * |msg| && |rest| == |p.poly.sig|
    requires Trail(Xor(Stream(p.rftIn, msg), Window(p.init.sig, 8 * |msg|)), |p.poly.sig|)
          == Xor(Times(p.poly.sig, q), Pad(8 * |msg|, rest))
    ensures Remainder(p, msg) == Xor(Shl(p.init.sig, 8 * |msg|), rest)
  {
    hide Steps, Times, Stream, Trail, Pad, Xor, Shl, Window, Zeros;
    var bits := Stream(p.rftIn, msg);
    TableStep(p.poly.sig, p.init.sig, bits);
    RemainderUnique(p.poly.sig, Xor(bits, Window(p.init.sig, |bits|)), q, rest);
  }

  lemma FinishBits(p: Params, rem: Bits)
    requires p.Valid() && |rem| == |p.poly.sig|
    ensures var n, sum := |rem|, Finish(p, rem);
            && |sum.sig| == n && sum.junk == Zeros(|p.poly.junk|)
            && forall i :: 0 <= i < n ==>
                 sum.sig[i] == (rem[if p.rftRem then n - 1 - i else i] != p.final.sig[i])
  {
  }

  /** There is such a remainder. */
  lemma {:induction false} ChecksumDivides(p: Params, msg: seq<Byte>) returns (q: Bits, rest: Bits)
    requires p.Valid()
    ensures |q| == 8 * |msg| && |rest| == |p.poly.sig|
    ensures Trail(Xor(Stream(p.rftIn, msg), Window(p.init.sig, 8 * |msg|)), |p.poly.sig|)
         == Xor(Times(p.poly.sig, q), Pad(8 * |msg|, rest))
  {
    var bits := Xor(Stream(p.rftIn, msg), Window(p.init.sig, 8 * |msg|));
    StepsIsRemainder(p.poly.sig, bits);
    q, rest := Quotient(p.poly.sig, bits), Steps(p.poly.sig, Zeros(|p.poly.sig|), bits);
  }

  /** A different final value changes the checksum by exactly the difference. */
  lemma {:induction false} FinalXors(p: Params, q: Params, msg: seq<Byte>)
    requires p.Valid() && q.Valid() && q == p.(final := q.final)
    ensures var a, b := Checksum(p, msg).sig, Checksum(q, msg).sig;
            |a| == |b| == |p.final.sig| == |q.final.sig| && Xor(a, b) == Xor(p.final.sig, q.final.sig)
  {
    var d, rest := ChecksumDivides(p, msg);
    ChecksumBits(p, msg, d, rest);
    ChecksumBits(q, msg, d, rest);
  }

  /** Reflecting the remainder reverses the checksum, as long as nothing is added to it. */
  lemma {:induction false} RemainderReflected(p: Params, msg: seq<Byte>)
    requires p.Valid() && p.final.sig == Zeros(|p.poly.sig|) && !p.rftRem
    ensures Checksum(p.(rftRem := true), msg).sig == Rev(Checksum(p, msg).sig)
  {
    var d, rest := ChecksumDivides(p, msg);
    ChecksumBits(p, msg, d, rest);
    ChecksumBits(p.(rftRem := true), msg, d, rest);
  }

  /** For a byte-aligned width: the augmented form over the message and one zero
      byte per remainder byte gives the plain remainder, and a remainder-wide
      tail leaves zero exactly when it is that remainder. */
  lemma {:induction false} AugmentedMessage(poly: Bits, msg: seq<Byte>, tail: seq<Byte>)
    requires |poly| == 8 * |tail| && |poly| >= 8
    ensures var rem := Steps(poly, Zeros(|poly|), Stream(false, msg));
            var fed := Feed(poly, Zeros(|poly|), Stream(false, msg + tail));
            && (Stream(false, tail) == Zeros(|poly|) ==> fed == rem)
            && (fed == Zeros(|poly|) <==> Stream(false, tail) == rem)
  {
    StreamConcat(false, msg, tail);
    FeedAugmentedFromZero(poly, Stream(false, msg));
    FeedAccepts(poly, Zeros(|poly|), Stream(false, msg), Stream(false, tail));
  }
}
