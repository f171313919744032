/** What `StreamExt.h` and `StreamExt2.h` write, how much `SizeType` says it
    is, and what reading it back returns. */
module Streams {
  import opened Basics

  /** `sizeof(size_t)`, `sizeof(SYSTEMTIME)`, `sizeof(DWORD64)` */
  const SIZE_T: nat := 8
  const SYSTEM_TIME: nat := 16
  const DWORD64: nat := 8

  /** The values of `UINT` are those below this. */
  const UINT_RANGE: nat := 0x1_0000_0000

  /** The C++ types that can be written. `Prim` is copied byte for byte; `Text`
      is a string of characters of the given size; `Listed` is a vector or a
      list; `Mapped` is an ordered or unordered map, by its entry type. */
  datatype Ty =
    | Prim(size: nat)
    | Text(width: nat)
    | Pair(first: Ty, second: Ty)
    | Listed(elem: Ty)
    | Forward(elem: Ty)
    | Mapped(entry: Ty)
    | FileData(width: nat)

  datatype Val =
    | Bytes(bytes: seq<Byte>)
    | Two(first: Val, second: Val)
    | Many(elems: seq<Val>)
    | File(name: seq<Byte>, date: seq<Byte>, size: seq<Byte>)

  // ------------------------------------------------------------- numbers as bytes

  function Pow256(k: nat): (r: nat)
    ensures r >= 1
  {
    if k == 0 then 1 else 256 * Pow256(k - 1)
  }

  /** Little-endian, in `k` bytes. */
  function NatBytes(v: nat, k: nat): (b: seq<Byte>)
    ensures |b| == k
  {
    if k == 0 then [] else [v % 256] + NatBytes(v / 256, k - 1)
  }

  function BytesNat(b: seq<Byte>): nat {
    if b == [] then 0 else b[0] + 256 * BytesNat(b[1..])
  }

  lemma {:induction false} NatBytesRoundTrip(v: nat, k: nat)
    requires v < Pow256(k)
    ensures BytesNat(NatBytes(v, k)) == v
  {
    if k > 0 {
      NatBytesRoundTrip(v / 256, k - 1);
      var b := NatBytes(v, k);
      assert b[1..] == NatBytes(v / 256, k - 1);
    }
  }

  /** The byte at each place: the lowest first. */
  lemma {:induction false} NatBytesAt(v: nat, k: nat, i: nat)
    requires i < k
    ensures NatBytes(v, k)[i] == (v / Pow256(i)) % 256
  {
    if i > 0 {
      NatBytesAt(v / 256, k - 1, i - 1);
      DivideTwice(v, Pow256(i - 1));
    }
  }

  lemma DivideTwice(v: nat, m: nat)
    requires m >= 1
    ensures (v / 256) / m == v / (256 * m)
  {
    var q, r := v / 256, v % 256;
    var d, t := q / m, q % m;
    assert q == d * m + t && v == 256 * q + r;
    assert v == d * (256 * m) + (256 * t + r);
    assert 256 * t + r < 256 * m;
    QuotientIs(v, 256 * m, d, 256 * t + r);
  }

  lemma QuotientIs(v: nat, m: nat, d: nat, r: nat)
    requires v == d * m + r && r < m
    ensures v / m == d
  {
    var e, s := v / m, v % m;
    assert v == e * m + s && (e - d) * m == r - s;
    assert e - d >= 1 ==> (e - d) * m >= m;
    assert e - d <= -1 ==> (e - d) * m <= -1 * m;
  }

  // ------------------------------------------------------------- values of a type

  ghost predicate HasType(ty: Ty, v: Val)
    decreases ty, 0
  {
    match ty
    case Prim(size) => v.Bytes? && |v.bytes| == size
    case Text(width) => v.Bytes? && IsText(width, v.bytes)
    case Pair(a, b) => v.Two? && HasType(a, v.first) && HasType(b, v.second)
    case Listed(t) => v.Many? && |v.elems| < Pow256(SIZE_T) && AllType(t, v.elems)
    case Forward(t) => v.Many? && |v.elems| < Pow256(SIZE_T) && AllType(t, v.elems)
    case Mapped(e) =>
      && e.Pair? && v.Many? && |v.elems| < Pow256(SIZE_T)
      && AllType(e, v.elems) && DistinctKeys(v.elems)
    case FileData(width) =>
      && v.File? && IsText(width, v.name)
      && |v.date| == SYSTEM_TIME && |v.size| == DWORD64
  }

  ghost predicate AllType(ty: Ty, vs: seq<Val>)
    decreases ty, 1
  {
    forall i :: 0 <= i < |vs| ==> HasType(ty, vs[i])
  }

  /** Whole characters, fewer than a `size_t` can count. */
  predicate IsText(width: nat, bytes: seq<Byte>) {
    width >= 1 && (|bytes| / width) * width == |bytes| && |bytes| / width < Pow256(SIZE_T)
  }

  /** The key of a map entry. */
  function Key(v: Val): Val {
    if v.Two? then v.first else v
  }

  ghost predicate DistinctKeys(vs: seq<Val>) {
    forall i, j :: 0 <= i < j < |vs| ==> Key(vs[i]) != Key(vs[j])
  }

  // ------------------------------------------------------------- writing

  /** How many bytes of `len` characters `Write(T*, UINT)` copies: both the
      count and the product pass through a `UINT`. */
  function Copied(width: nat, len: nat): nat {
    ((len % UINT_RANGE) * width) % UINT_RANGE
  }

  function EmitText(width: nat, bytes: seq<Byte>): seq<Byte>
    requires IsText(width, bytes)
  {
    CopiedBound(width, bytes);
    NatBytes(|bytes| / width, SIZE_T) + bytes[..Copied(width, |bytes| / width)]
  }

  function SizeText(bytes: seq<Byte>): nat {
    SIZE_T + |bytes|
  }

  function Emit(ty: Ty, v: Val): seq<Byte>
    requires HasType(ty, v)
    decreases ty, 0
  {
    match ty
    case Prim(_) => v.bytes
    case Text(width) => EmitText(width, v.bytes)
    case Pair(a, b) => Emit(b, v.second) + Emit(a, v.first)
    case Listed(t) => NatBytes(|v.elems|, SIZE_T) + EmitAll(t, v.elems)
    case Forward(t) => NatBytes(|v.elems|, SIZE_T) + EmitAll(t, v.elems)
    case Mapped(e) => NatBytes(|v.elems|, SIZE_T) + EmitAll(e, v.elems)
    case FileData(width) => EmitText(width, v.name) + v.date + v.size
  }

  function EmitAll(ty: Ty, vs: seq<Val>): seq<Byte>
    requires AllType(ty, vs)
    decreases ty, 1 + |vs|
  {
    if vs == [] then [] else EmitAll(ty, vs[..|vs| - 1]) + Emit(ty, vs[|vs| - 1])
  }

  /** `SizeType` */
  function SizeType(ty: Ty, v: Val): nat
    requires HasType(ty, v)
    decreases ty, 0
  {
    match ty
    case Prim(size) => size
    case Text(_) => SizeText(v.bytes)
    case Pair(a, b) => SizeType(a, v.first) + SizeType(b, v.second)
    case Listed(t) => SIZE_T + SizeAll(t, v.elems)
    case Forward(t) => SIZE_T + SizeAll(t, v.elems)
    case Mapped(e) => SIZE_T + SizeAll(e, v.elems)
    case FileData(_) => SizeText(v.name) + SYSTEM_TIME + DWORD64
  }

  function SizeAll(ty: Ty, vs: seq<Val>): nat
    requires AllType(ty, vs)
    decreases ty, 1 + |vs|
  {
    if vs == [] then 0 else SizeAll(ty, vs[..|vs| - 1]) + SizeType(ty, vs[|vs| - 1])
  }

  /** No string in the value has as many bytes as a `UINT` can count. */
  ghost predicate Fits(ty: Ty, v: Val)
    requires HasType(ty, v)
    decreases ty, 0
  {
    match ty
    case Prim(_) => true
    case Text(_) => |v.bytes| < UINT_RANGE
    case Pair(a, b) => Fits(a, v.first) && Fits(b, v.second)
    case Listed(t) => AllFit(t, v.elems)
    case Forward(t) => AllFit(t, v.elems)
    case Mapped(e) => AllFit(e, v.elems)
    case FileData(_) => |v.name| < UINT_RANGE
  }

  ghost predicate AllFit(ty: Ty, vs: seq<Val>)
    requires AllType(ty, vs)
    decreases ty, 1
  {
    forall i :: 0 <= i < |vs| ==> Fits(ty, vs[i])
  }

  lemma ModBound(a: nat, m: nat)
    requires m >= 1
    ensures a % m <= a && a % m < m && (a < m ==> a % m == a)
  {
  }

  lemma CopiedBound(width: nat, bytes: seq<Byte>)
    requires IsText(width, bytes)
    ensures Copied(width, |bytes| / width) <= |bytes|
    ensures Copied(width, |bytes| / width) == |bytes| <==> |bytes| < UINT_RANGE
  {
    var len := |bytes| / width;
    ModBound(len, UINT_RANGE);
    MulMonotone(len % UINT_RANGE, len, width);
    ModBound((len % UINT_RANGE) * width, UINT_RANGE);
    MulMonotone(1, width, len);
  }

  lemma MulMonotone(a: nat, b: nat, c: nat)
    requires a <= b
    ensures a * c <= b * c && c * a <= c * b
  {
  }

  /** Exactly when `SizeType` is right: it never promises too little, and it
      promises what `Write` emits if and only if every string fits. */
  lemma {:induction false} SizeTypeExact(ty: Ty, v: Val)
    requires HasType(ty, v)
    ensures |Emit(ty, v)| <= SizeType(ty, v)
    ensures |Emit(ty, v)| == SizeType(ty, v) <==> Fits(ty, v)
    decreases ty, 0
  {
    match ty
    case Prim(_) =>
    case Text(width) => CopiedBound(width, v.bytes);
    case Pair(a, b) =>
      SizeTypeExact(a, v.first);
      SizeTypeExact(b, v.second);
    case Listed(t) => SizeAllExact(t, v.elems);
    case Forward(t) => SizeAllExact(t, v.elems);
    case Mapped(e) => SizeAllExact(e, v.elems);
    case FileData(width) => CopiedBound(width, v.name);
  }

  lemma {:induction false} SizeAllExact(ty: Ty, vs: seq<Val>)
    requires AllType(ty, vs)
    ensures |EmitAll(ty, vs)| <= SizeAll(ty, vs)
    ensures |EmitAll(ty, vs)| == SizeAll(ty, vs) <==> AllFit(ty, vs)
    decreases ty, 1 + |vs|
  {
    if vs != [] {
      var k := |vs| - 1;
      SizeAllExact(ty, vs[..k]);
      SizeTypeExact(ty, vs[k]);
      AllFitSnoc(ty, vs);
    }
  }

  lemma AllFitSnoc(ty: Ty, vs: seq<Val>)
    requires AllType(ty, vs) && vs != []
    ensures AllFit(ty, vs) <==> AllFit(ty, vs[..|vs| - 1]) && Fits(ty, vs[|vs| - 1])
  {
    var k := |vs| - 1;
    if AllFit(ty, vs[..k]) && Fits(ty, vs[k]) {
      forall i | 0 <= i < |vs| ensures Fits(ty, vs[i]) {
        assert i < k ==> vs[..k][i] == vs[i];
      }
    }
  }

  // ------------------------------------------------------------- reading

  /** `Read<T>()` of a plain type. `None` where the cursor would pass the end
      (the original asserts that it does not). */
  function Take(buf: seq<Byte>, pos: nat, size: nat): Option<(seq<Byte>, nat)> {
    if pos + size <= |buf| then Some((buf[pos..pos + size], pos + size)) else None
  }

  function TakeSize(buf: seq<Byte>, pos: nat): Option<(nat, nat)> {
    var (b, p) :- Take(buf, pos, SIZE_T);
    Some((BytesNat(b), p))
  }

  /** The string is built from as many characters as its length says, while the
      cursor moves by what the `UINT` count makes of it. */
  function TakeText(width: nat, buf: seq<Byte>, pos: nat): Option<(seq<Byte>, nat)> {
    var (len, p) :- TakeSize(buf, pos);
    if p + Copied(width, len) > |buf| then None
    else
      var (b, _) :- Take(buf, p, len * width);
      Some((b, p + Copied(width, len)))
  }

  /** Inserting into a map does nothing when the key is there already. */
  function Insert(entries: seq<Val>, v: Val): seq<Val> {
    if exists i :: 0 <= i < |entries| && Key(entries[i]) == Key(v) then entries else entries + [v]
  }

  function Inserted(vs: seq<Val>): seq<Val> {
    if vs == [] then [] else Insert(Inserted(vs[..|vs| - 1]), vs[|vs| - 1])
  }

  /** `push_front` of one element after the other. */
  function Reversed(vs: seq<Val>): (r: seq<Val>)
    ensures |r| == |vs|
  {
    if vs == [] then [] else [vs[|vs| - 1]] + Reversed(vs[..|vs| - 1])
  }

  /** What reading a value of the given type at the given place returns, and
      where it leaves the cursor. `rightToLeft` is the order in which the
      arguments of `make_pair` are evaluated. */
  function Decode(rightToLeft: bool, ty: Ty, buf: seq<Byte>, pos: nat): Option<(Val, nat)>
    decreases ty, 0
  {
    match ty
    case Prim(size) =>
      var (b, p) :- Take(buf, pos, size);
      Some((Bytes(b), p))
    case Text(width) =>
      var (b, p) :- TakeText(width, buf, pos);
      Some((Bytes(b), p))
    case Pair(a, b) =>
      if rightToLeft then
        var (y, p) :- Decode(rightToLeft, b, buf, pos);
        var (x, q) :- Decode(rightToLeft, a, buf, p);
        Some((Two(x, y), q))
      else
        var (x, p) :- Decode(rightToLeft, a, buf, pos);
        var (y, q) :- Decode(rightToLeft, b, buf, p);
        Some((Two(x, y), q))
    case Listed(t) =>
      var (vs, q) :- DecodeSome(rightToLeft, t, buf, pos);
      Some((Many(vs), q))
    case Forward(t) =>
      var (vs, q) :- DecodeSome(rightToLeft, t, buf, pos);
      Some((Many(Reversed(vs)), q))
    case Mapped(e) =>
      var (vs, q) :- DecodeSome(rightToLeft, e, buf, pos);
      Some((Many(Inserted(vs)), q))
    case FileData(width) =>
      var (name, p) :- TakeText(width, buf, pos);
      var (date, q) :- Take(buf, p, SYSTEM_TIME);
      var (size, r) :- Take(buf, q, DWORD64);
      Some((File(name, date, size), r))
  }

  /** A count and that many values. */
  function DecodeSome(rightToLeft: bool, ty: Ty, buf: seq<Byte>, pos: nat): Option<(seq<Val>, nat)>
    decreases ty, 2
  {
    var (n, p) :- TakeSize(buf, pos);
    DecodeN(rightToLeft, ty, n, buf, p)
  }

  function DecodeN(rightToLeft: bool, ty: Ty, n: nat, buf: seq<Byte>, pos: nat): Option<(seq<Val>, nat)>
    decreases ty, 1, n
  {
    if n == 0 then Some(([], pos))
    else
      var (vs, p) :- DecodeN(rightToLeft, ty, n - 1, buf, pos);
      var (v, q) :- Decode(rightToLeft, ty, buf, p);
      Some((vs + [v], q))
  }

  // ------------------------------------------------------------- what comes back

  /** The value with every forward list in it reversed. */
  function Mirror(ty: Ty, v: Val): Val
    requires HasType(ty, v)
    decreases ty, 0
  {
    match ty
    case Prim(_) => v
    case Text(_) => v
    case Pair(a, b) => Two(Mirror(a, v.first), Mirror(b, v.second))
    case Listed(t) => Many(MirrorAll(t, v.elems))
    case Forward(t) => Many(Reversed(MirrorAll(t, v.elems)))
    case Mapped(e) => Many(MirrorAll(e, v.elems))
    case FileData(_) => v
  }

  function MirrorAll(ty: Ty, vs: seq<Val>): (r: seq<Val>)
    requires AllType(ty, vs)
    ensures |r| == |vs| && forall i :: 0 <= i < |vs| ==> r[i] == Mirror(ty, vs[i])
    decreases ty, 1 + |vs|
  {
    if vs == [] then [] else MirrorAll(ty, vs[..|vs| - 1]) + [Mirror(ty, vs[|vs| - 1])]
  }

  lemma {:induction false} ReversedAt(vs: seq<Val>, i: nat)
    requires i < |vs|
    ensures Reversed(vs)[i] == vs[|vs| - 1 - i]
    decreases |vs|
  {
    if i > 0 {
      ReversedAt(vs[..|vs| - 1], i - 1);
    }
  }

  /** The type has no forward list anywhere in it. */
  predicate NoForward(ty: Ty) {
    match ty
    case Prim(_) => true
    case Text(_) => true
    case Pair(a, b) => NoForward(a) && NoForward(b)
    case Listed(t) => NoForward(t)
    case Forward(_) => false
    case Mapped(e) => NoForward(e)
    case FileData(_) => true
  }

  /** Without forward lists, a value comes back as it was. */
  lemma {:induction false} MirrorPlain(ty: Ty, v: Val)
    requires HasType(ty, v) && NoForward(ty)
    ensures Mirror(ty, v) == v
    decreases ty, 0
  {
    match ty
    case Prim(_) =>
    case Text(_) =>
    case Pair(a, b) =>
      MirrorPlain(a, v.first);
      MirrorPlain(b, v.second);
    case Listed(t) => MirrorAllPlain(t, v.elems);
    case Mapped(e) => MirrorAllPlain(e, v.elems);
    case FileData(_) =>
  }

  lemma {:induction false} MirrorAllPlain(ty: Ty, vs: seq<Val>)
    requires AllType(ty, vs) && NoForward(ty)
    ensures MirrorAll(ty, vs) == vs
    decreases ty, 1
  {
    forall i | 0 <= i < |vs| ensures MirrorAll(ty, vs)[i] == vs[i] {
      MirrorPlain(ty, vs[i]);
    }
  }

  /** A forward list comes back from its last element to its first, and its
      elements as elements of that type do. */
  lemma {:induction false} MirrorForward(t: Ty, v: Val, i: nat)
    requires HasType(Forward(t), v) && i < |v.elems|
    ensures HasType(t, v.elems[|v.elems| - 1 - i])
    ensures var w := Mirror(Forward(t), v);
            w.Many? && |w.elems| == |v.elems| && w.elems[i] == Mirror(t, v.elems[|v.elems| - 1 - i])
  {
    ReversedAt(MirrorAll(t, v.elems), i);
  }

  /** Any other list comes back in its own order. */
  lemma {:induction false} MirrorListed(t: Ty, v: Val, i: nat)
    requires HasType(Listed(t), v) && i < |v.elems|
    ensures HasType(t, v.elems[i])
    ensures var w := Mirror(Listed(t), v);
            w.Many? && |w.elems| == |v.elems| && w.elems[i] == Mirror(t, v.elems[i])
  {
  }

  /** Different values of a type come back different: the reversals lose nothing. */
  lemma {:induction false} MirrorInjective(ty: Ty, v: Val, w: Val)
    requires HasType(ty, v) && HasType(ty, w) && Mirror(ty, v) == Mirror(ty, w)
    ensures v == w
    decreases ty, 0
  {
    match ty
    case Prim(_) =>
    case Text(_) =>
    case Pair(a, b) =>
      MirrorInjective(a, v.first, w.first);
      MirrorInjective(b, v.second, w.second);
    case Listed(t) => MirrorAllInjective(t, v.elems, w.elems);
    case Forward(t) =>
      ReversedInjective(MirrorAll(t, v.elems), MirrorAll(t, w.elems));
      MirrorAllInjective(t, v.elems, w.elems);
    case Mapped(e) => MirrorAllInjective(e, v.elems, w.elems);
    case FileData(_) =>
  }

  lemma ReversedInjective(x: seq<Val>, y: seq<Val>)
    requires Reversed(x) == Reversed(y)
    ensures x == y
  {
    assert |x| == |Reversed(x)| == |Reversed(y)| == |y|;
    forall i | 0 <= i < |x| ensures x[i] == y[i] {
      ReversedAt(x, |x| - 1 - i);
      ReversedAt(y, |x| - 1 - i);
    }
  }

  lemma {:induction false} MirrorAllInjective(ty: Ty, vs: seq<Val>, ws: seq<Val>)
    requires AllType(ty, vs) && AllType(ty, ws)
    requires MirrorAll(ty, vs) == MirrorAll(ty, ws)
    ensures vs == ws
    decreases ty, 1
  {
    assert |vs| == |ws|;
    forall i | 0 <= i < |vs| ensures vs[i] == ws[i] {
      assert MirrorAll(ty, vs)[i] == MirrorAll(ty, ws)[i];
      MirrorInjective(ty, vs[i], ws[i]);
    }
  }

  /** The keys of a map stay distinct, so every insertion takes effect. */
  lemma MirrorDistinct(e: Ty, vs: seq<Val>)
    requires e.Pair? && AllType(e, vs) && DistinctKeys(vs)
    ensures DistinctKeys(MirrorAll(e, vs))
  {
    var r := MirrorAll(e, vs);
    forall i, j | 0 <= i < j < |r| ensures Key(r[i]) != Key(r[j]) {
      assert HasType(e, vs[i]) && HasType(e, vs[j]);
      if Key(r[i]) == Key(r[j]) {
        MirrorInjective(e.first, vs[i].first, vs[j].first);
        assert false;
      }
    }
  }

  lemma {:induction false} InsertedDistinct(vs: seq<Val>)
    requires DistinctKeys(vs)
    ensures Inserted(vs) == vs
    decreases |vs|
  {
    if vs != [] {
      InsertedDistinct(vs[..|vs| - 1]);
    }
  }

  // ------------------------------------------------------------- round trip

  lemma TakeSizeAt(buf: seq<Byte>, pos: nat, n: nat)
    requires n < Pow256(SIZE_T) && At(buf, pos, NatBytes(n, SIZE_T))
    ensures TakeSize(buf, pos) == Some((n, pos + SIZE_T))
  {
    NatBytesRoundTrip(n, SIZE_T);
  }

  lemma TakeTextAt(width: nat, buf: seq<Byte>, pos: nat, bytes: seq<Byte>)
    requires IsText(width, bytes) && |bytes| < UINT_RANGE && At(buf, pos, EmitText(width, bytes))
    ensures TakeText(width, buf, pos) == Some((bytes, pos + |EmitText(width, bytes)|))
  {
    var len := |bytes| / width;
    CopiedBound(width, bytes);
    assert bytes[..|bytes|] == bytes;
    AtSplit(buf, pos, NatBytes(len, SIZE_T), bytes);
    TakeSizeAt(buf, pos, len);
  }

  /** Reading what was just written, wherever it stands, returns the value with
      its forward lists reversed and leaves the cursor right behind it. */
  lemma {:induction false} RoundTrip(ty: Ty, v: Val, buf: seq<Byte>, pos: nat)
    requires HasType(ty, v) && Fits(ty, v) && At(buf, pos, Emit(ty, v))
    ensures Decode(true, ty, buf, pos) == Some((Mirror(ty, v), pos + |Emit(ty, v)|))
    decreases ty, 1
  {
    match ty
    case Prim(_) =>
    case Text(width) => TakeTextAt(width, buf, pos, v.bytes);
    case Pair(a, b) => RoundTripPair(a, b, v, buf, pos);
    case Listed(t) => RoundTripListed(t, v, buf, pos);
    case Forward(t) => RoundTripForward(t, v, buf, pos);
    case Mapped(e) => RoundTripMapped(e, v, buf, pos);
    case FileData(width) => RoundTripFile(width, v, buf, pos);
  }

  lemma {:induction false} RoundTripListed(t: Ty, v: Val, buf: seq<Byte>, pos: nat)
    requires HasType(Listed(t), v) && Fits(Listed(t), v) && At(buf, pos, Emit(Listed(t), v))
    ensures Decode(true, Listed(t), buf, pos) == Some((Mirror(Listed(t), v), pos + |Emit(Listed(t), v)|))
    decreases Listed(t), 0
  {
    RoundTripSome(t, v.elems, buf, pos);
  }

  lemma {:induction false} RoundTripForward(t: Ty, v: Val, buf: seq<Byte>, pos: nat)
    requires HasType(Forward(t), v) && Fits(Forward(t), v) && At(buf, pos, Emit(Forward(t), v))
    ensures Decode(true, Forward(t), buf, pos) == Some((Mirror(Forward(t), v), pos + |Emit(Forward(t), v)|))
    decreases Forward(t), 0
  {
    RoundTripSome(t, v.elems, buf, pos);
  }

  lemma {:induction false} RoundTripMapped(e: Ty, v: Val, buf: seq<Byte>, pos: nat)
    requires HasType(Mapped(e), v) && Fits(Mapped(e), v) && At(buf, pos, Emit(Mapped(e), v))
    ensures Decode(true, Mapped(e), buf, pos) == Some((Mirror(Mapped(e), v), pos + |Emit(Mapped(e), v)|))
    decreases Mapped(e), 0
  {
    RoundTripSome(e, v.elems, buf, pos);
    MirrorDistinct(e, v.elems);
    InsertedDistinct(MirrorAll(e, v.elems));
  }

  lemma {:induction false} RoundTripPair(a: Ty, b: Ty, v: Val, buf: seq<Byte>, pos: nat)
    requires HasType(Pair(a, b), v) && Fits(Pair(a, b), v) && At(buf, pos, Emit(Pair(a, b), v))
    ensures Decode(true, Pair(a, b), buf, pos)
         == Some((Mirror(Pair(a, b), v), pos + |Emit(Pair(a, b), v)|))
    decreases Pair(a, b), 0
  {
    var y := Emit(b, v.second);
    AtSplit(buf, pos, y, Emit(a, v.first));
    RoundTrip(b, v.second, buf, pos);
    RoundTrip(a, v.first, buf, pos + |y|);
  }

  lemma RoundTripFile(width: nat, v: Val, buf: seq<Byte>, pos: nat)
    requires HasType(FileData(width), v) && Fits(FileData(width), v)
    requires At(buf, pos, Emit(FileData(width), v))
    ensures Decode(true, FileData(width), buf, pos) == Some((v, pos + |Emit(FileData(width), v)|))
  {
    var name := EmitText(width, v.name);
    AtSplit(buf, pos, name + v.date, v.size);
    AtSplit(buf, pos, name, v.date);
    TakeTextAt(width, buf, pos, v.name);
  }

  lemma {:induction false} RoundTripSome(ty: Ty, vs: seq<Val>, buf: seq<Byte>, pos: nat)
    requires |vs| < Pow256(SIZE_T) && AllType(ty, vs) && AllFit(ty, vs)
    requires At(buf, pos, NatBytes(|vs|, SIZE_T) + EmitAll(ty, vs))
    ensures DecodeSome(true, ty, buf, pos)
         == Some((MirrorAll(ty, vs), pos + SIZE_T + |EmitAll(ty, vs)|))
    decreases ty, 3
  {
    AtSplit(buf, pos, NatBytes(|vs|, SIZE_T), EmitAll(ty, vs));
    TakeSizeAt(buf, pos, |vs|);
    RoundTripAll(ty, vs, buf, pos + SIZE_T);
  }

  lemma EmitAllSnoc(ty: Ty, vs: seq<Val>, buf: seq<Byte>, pos: nat)
    requires AllType(ty, vs) && vs != [] && At(buf, pos, EmitAll(ty, vs))
    ensures var front, last := vs[..|vs| - 1], vs[|vs| - 1];
            && AllType(ty, front) && HasType(ty, last)
            && At(buf, pos, EmitAll(ty, front))
            && At(buf, pos + |EmitAll(ty, front)|, Emit(ty, last))
            && |EmitAll(ty, vs)| == |EmitAll(ty, front)| + |Emit(ty, last)|
            && MirrorAll(ty, vs) == MirrorAll(ty, front) + [Mirror(ty, last)]
  {
    AtSplit(buf, pos, EmitAll(ty, vs[..|vs| - 1]), Emit(ty, vs[|vs| - 1]));
  }

  lemma {:induction false} RoundTripAll(ty: Ty, vs: seq<Val>, buf: seq<Byte>, pos: nat)
    requires AllType(ty, vs) && AllFit(ty, vs) && At(buf, pos, EmitAll(ty, vs))
    ensures DecodeN(true, ty, |vs|, buf, pos) == Some((MirrorAll(ty, vs), pos + |EmitAll(ty, vs)|))
    decreases ty, 2, |vs|
  {
    if vs != [] {
      var front, last := vs[..|vs| - 1], vs[|vs| - 1];
      EmitAllSnoc(ty, vs, buf, pos);
      AllFitSnoc(ty, vs);
      var mid, end := pos + |EmitAll(ty, front)|, pos + |EmitAll(ty, vs)|;
      RoundTripAll(ty, front, buf, pos);
      RoundTrip(ty, last, buf, mid);
      DecodeNSnoc(ty, |front|, buf, pos, MirrorAll(ty, front), mid, Mirror(ty, last), end);
    }
  }

  lemma DecodeNSnoc(ty: Ty, n: nat, buf: seq<Byte>, pos: nat, vs: seq<Val>, mid: nat, v: Val, end: nat)
    requires DecodeN(true, ty, n, buf, pos) == Some((vs, mid))
    requires Decode(true, ty, buf, mid) == Some((v, end))
    ensures DecodeN(true, ty, n + 1, buf, pos) == Some((vs + [v], end))
  {
  }

  /** The reader relies on the compiler evaluating the arguments of `make_pair`
      from right to left. With the other order a pair of plain values comes
      back right exactly when its two halves could be swapped in the buffer. */
  lemma {:induction false} LeftToRightPairs(a: nat, b: nat, v: Val)
    requires v.Two? && HasType(Prim(a), v.first) && HasType(Prim(b), v.second)
    ensures var ty := Pair(Prim(a), Prim(b));
            Decode(false, ty, Emit(ty, v), 0) == Some((v, a + b))
            <==> v.first.bytes + v.second.bytes == v.second.bytes + v.first.bytes
  {
    var x, y := v.first.bytes, v.second.bytes;
    var buf := y + x;
    assert Emit(Pair(Prim(a), Prim(b)), v) == buf;
    assert buf[..a] + buf[a..] == buf;
    assert (x + y)[..a] == x && (x + y)[a..] == y;
    assert buf[a..a + b] == buf[a..];
    assert buf[0..a] == buf[..a];
  }
}
