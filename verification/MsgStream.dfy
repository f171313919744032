/** `MsgStream.h`: the writer and the reader over a byte buffer with a cursor. */
module MsgStreams {
  import opened Basics
  import opened Streams

  const SHORT_RANGE: nat := 0x1_0000

  /** `b` with `x` written over it from `pos` on. */
  ghost function Splice(b: seq<Byte>, pos: nat, x: seq<Byte>): (r: seq<Byte>)
    requires pos + |x| <= |b|
    ensures |r| == |b|
  {
    seq(|b|, i requires 0 <= i < |b| => if pos <= i < pos + |x| then x[i - pos] else b[i])
  }

  lemma SpliceSplice(b: seq<Byte>, pos: nat, x: seq<Byte>, y: seq<Byte>)
    requires pos + |x| + |y| <= |b|
    ensures Splice(Splice(b, pos, x), pos + |x|, y) == Splice(b, pos, x + y)
  {
  }

  lemma SpliceNothing(b: seq<Byte>, pos: nat)
    requires pos <= |b|
    ensures Splice(b, pos, []) == b
  {
  }

  lemma SpliceAt(b: seq<Byte>, pos: nat, x: seq<Byte>)
    requires pos + |x| <= |b|
    ensures At(Splice(b, pos, x), pos, x)
  {
  }

  /** One more element of a container. */
  lemma EmitAllPrefix(ty: Ty, vs: seq<Val>, i: nat)
    requires AllType(ty, vs) && i < |vs|
    ensures AllType(ty, vs[..i]) && AllType(ty, vs[..i + 1])
    ensures EmitAll(ty, vs[..i + 1]) == EmitAll(ty, vs[..i]) + Emit(ty, vs[i])
  {
    assert vs[..i + 1][..i] == vs[..i];
  }

  lemma {:induction false} EmitAllLength(ty: Ty, vs: seq<Val>, i: nat)
    requires AllType(ty, vs) && i <= |vs|
    ensures AllType(ty, vs[..i]) && |EmitAll(ty, vs[..i])| <= |EmitAll(ty, vs)|
    decreases |vs|
  {
    if i == |vs| {
      assert vs[..i] == vs;
    } else {
      var front := vs[..|vs| - 1];
      assert front[..i] == vs[..i];
      EmitAllLength(ty, front, i);
    }
  }

  lemma SpliceElement(b: seq<Byte>, pos: nat, size: seq<Byte>, ty: Ty, vs: seq<Val>, i: nat)
    requires AllType(ty, vs) && i < |vs| && pos + |size| + |EmitAll(ty, vs)| <= |b|
    ensures AllType(ty, vs[..i]) && AllType(ty, vs[..i + 1])
    ensures |EmitAll(ty, vs[..i])| + |Emit(ty, vs[i])| == |EmitAll(ty, vs[..i + 1])| <= |EmitAll(ty, vs)|
    ensures var done, more := size + EmitAll(ty, vs[..i]), Emit(ty, vs[i]);
            Splice(Splice(b, pos, done), pos + |done|, more) == Splice(b, pos, size + EmitAll(ty, vs[..i + 1]))
  {
    EmitAllPrefix(ty, vs, i);
    EmitAllLength(ty, vs, i + 1);
    var done, more := EmitAll(ty, vs[..i]), Emit(ty, vs[i]);
    SpliceSplice(b, pos, size + done, more);
    assert size + done + more == size + (done + more);
  }

  class MsgStreamWriter {
    const buf: array<Byte>
    const end: nat
    var data: nat

    ghost predicate Valid() reads this {
      MSG_OFFSET <= data <= end <= buf.Length
    }

    /** `capacity` does not include the message type and number. */
    constructor (buf: array<Byte>, capacity: nat, typ: nat, msg: nat)
      requires MSG_OFFSET + capacity <= buf.Length
      requires typ < SHORT_RANGE && msg < SHORT_RANGE
      modifies buf
      ensures Valid() && this.buf == buf && end == MSG_OFFSET + capacity && data == MSG_OFFSET
      ensures buf[..] == Splice(old(buf[..]), 0, NatBytes(typ, 2) + NatBytes(msg, 2))
    {
      this.buf := buf;
      end := MSG_OFFSET + capacity;
      data := MSG_OFFSET;
      new;
      var header := NatBytes(typ, 2) + NatBytes(msg, 2);
      forall i | 0 <= i < MSG_OFFSET {
        buf[i] := header[i];
      }
    }

    /** `memcpy` at the cursor, which moves behind it. */
    method Put(bytes: seq<Byte>)
      requires Valid() && data + |bytes| <= end
      modifies this`data, buf
      ensures Valid() && data == old(data) + |bytes|
      ensures buf[..] == Splice(old(buf[..]), old(data), bytes)
    {
      forall i | 0 <= i < |bytes| {
        buf[data + i] := bytes[i];
      }
      data := data + |bytes|;
    }

    /** `basic_string` */
    method WriteText(width: nat, bytes: seq<Byte>)
      requires Valid() && IsText(width, bytes) && data + |EmitText(width, bytes)| <= end
      modifies this`data, buf
      ensures Valid() && data == old(data) + |EmitText(width, bytes)|
      ensures buf[..] == Splice(old(buf[..]), old(data), EmitText(width, bytes))
      ensures |bytes| < UINT_RANGE ==> EmitText(width, bytes) == NatBytes(|bytes| / width, SIZE_T) + bytes
    {
      var len := |bytes| / width;
      CopiedBound(width, bytes);
      ghost var before, start := buf[..], data;
      Put(NatBytes(len, SIZE_T));
      Put(bytes[..Copied(width, len)]);
      SpliceSplice(before, start, NatBytes(len, SIZE_T), bytes[..Copied(width, len)]);
    }

    /** The size of a container and then its elements in order. */
    method WriteElements(elem: Ty, vs: seq<Val>)
      requires Valid() && |vs| < Pow256(SIZE_T) && AllType(elem, vs)
      requires data + SIZE_T + |EmitAll(elem, vs)| <= end
      modifies this`data, buf
      ensures Valid() && data == old(data) + SIZE_T + |EmitAll(elem, vs)|
      ensures buf[..] == Splice(old(buf[..]), old(data), NatBytes(|vs|, SIZE_T) + EmitAll(elem, vs))
      decreases elem, 2
    {
      ghost var before, start := buf[..], data;
      var size := NatBytes(|vs|, SIZE_T);
      Put(size);
      var i := 0;
      assert size + [] == size;
      while i < |vs|
        invariant 0 <= i <= |vs| && Valid() && AllType(elem, vs[..i])
        invariant data == start + SIZE_T + |EmitAll(elem, vs[..i])|
        invariant buf[..] == Splice(before, start, size + EmitAll(elem, vs[..i]))
      {
        SpliceElement(before, start, size, elem, vs, i);
        Write(elem, vs[i]);
        i := i + 1;
      }
      assert vs[..i] == vs;
    }

    /** `Write` of any supported type. */
    method Write(ty: Ty, v: Val)
      requires Valid() && HasType(ty, v) && data + |Emit(ty, v)| <= end
      modifies this`data, buf
      ensures Valid() && data == old(data) + |Emit(ty, v)|
      ensures buf[..] == Splice(old(buf[..]), old(data), Emit(ty, v))
      decreases ty, 1
    {
      match ty
      case Prim(_) => Put(v.bytes);
      case Text(width) => WriteText(width, v.bytes);
      case Pair(a, b) => WritePair(a, b, v);
      case Listed(t) => WriteElements(t, v.elems);
      case Forward(t) => WriteElements(t, v.elems);
      case Mapped(e) => WriteElements(e, v.elems);
      case FileData(width) => WriteFileData(width, v);
    }

    /** The second half goes first. */
    method WritePair(a: Ty, b: Ty, v: Val)
      requires Valid() && HasType(Pair(a, b), v) && data + |Emit(Pair(a, b), v)| <= end
      modifies this`data, buf
      ensures Valid() && data == old(data) + |Emit(Pair(a, b), v)|
      ensures buf[..] == Splice(old(buf[..]), old(data), Emit(Pair(a, b), v))
      ensures Emit(Pair(a, b), v) == Emit(b, v.second) + Emit(a, v.first)
      decreases Pair(a, b), 0
    {
      ghost var before, start := buf[..], data;
      Write(b, v.second);
      Write(a, v.first);
      SpliceSplice(before, start, Emit(b, v.second), Emit(a, v.first));
    }

    method WriteFileData(width: nat, v: Val)
      requires Valid() && HasType(FileData(width), v) && data + |Emit(FileData(width), v)| <= end
      modifies this`data, buf
      ensures Valid() && data == old(data) + |Emit(FileData(width), v)|
      ensures buf[..] == Splice(old(buf[..]), old(data), Emit(FileData(width), v))
      ensures Emit(FileData(width), v) == EmitText(width, v.name) + v.date + v.size
    {
      ghost var before, start, name := buf[..], data, EmitText(width, v.name);
      WriteText(width, v.name);
      Put(v.date);
      SpliceSplice(before, start, name, v.date);
      Put(v.size);
      SpliceSplice(before, start, name + v.date, v.size);
    }

    method End() returns (r: bool)
      ensures r <==> data == end
    {
      r := data == end;
    }
  }

  // ------------------------------------------------------------- reading

  /** When the reading of some number of values fails, so does that of more. */
  lemma {:induction false} DecodeNFails(ty: Ty, i: nat, n: nat, buf: seq<Byte>, pos: nat)
    requires i <= n && DecodeN(true, ty, i, buf, pos).None?
    ensures DecodeN(true, ty, n, buf, pos).None?
    decreases n
  {
    if i < n {
      DecodeNFails(ty, i, n - 1, buf, pos);
    }
  }

  /** The kinds of container that are filled element by element. */
  datatype Kind = Back | Front | Keyed

  /** What a container of the kind holds after the given elements have gone in. */
  function Filled(kind: Kind, vs: seq<Val>): seq<Val> {
    match kind
    case Back => vs
    case Front => Reversed(vs)
    case Keyed => Inserted(vs)
  }

  lemma FilledSnoc(kind: Kind, vs: seq<Val>, v: Val)
    ensures Filled(kind, vs + [v])
         == match kind
            case Back => Filled(Back, vs) + [v]
            case Front => [v] + Filled(Front, vs)
            case Keyed => Insert(Filled(Keyed, vs), v)
  {
    assert (vs + [v])[..|vs|] == vs;
  }

  class MsgStreamReader {
    const buf: seq<Byte>
    var data: nat

    constructor (buf: seq<Byte>)
      ensures this.buf == buf && data == MSG_OFFSET
    {
      this.buf := buf;
      data := MSG_OFFSET;
    }

    method Get(size: nat) returns (r: Option<seq<Byte>>)
      modifies this`data
      ensures r.Some? ==> Take(buf, old(data), size) == Some((r.value, data))
      ensures r.None? ==> Take(buf, old(data), size) == None
    {
      if data + size > |buf| {
        return None;
      }
      r := Some(buf[data..data + size]);
      data := data + size;
    }

    method ReadSize() returns (r: Option<nat>)
      modifies this`data
      ensures r.Some? ==> TakeSize(buf, old(data)) == Some((r.value, data))
      ensures r.None? ==> TakeSize(buf, old(data)) == None
    {
      var b := Get(SIZE_T);
      match b
      case None => return None;
      case Some(bytes) => return Some(BytesNat(bytes));
    }

    method ReadText(width: nat) returns (r: Option<seq<Byte>>)
      modifies this`data
      ensures r.Some? ==> TakeText(width, buf, old(data)) == Some((r.value, data))
      ensures r.None? ==> TakeText(width, buf, old(data)) == None
    {
      var size := ReadSize();
      if size.None? {
        return None;
      }
      var len, start := size.value, data;
      if start + Copied(width, len) > |buf| || start + len * width > |buf| {
        return None;
      }
      data := data + Copied(width, len);
      return Some(buf[start..start + len * width]);
    }

    /** The loops of the container readers: `push_back`, `push_front` or `insert`. */
    method ReadElements(kind: Kind, elem: Ty) returns (r: Option<seq<Val>>)
      modifies this`data
      ensures match DecodeSome(true, elem, buf, old(data))
              case None => r.None?
              case Some((vs, p)) => r == Some(Filled(kind, vs)) && data == p
      decreases elem, 1
    {
      var size := ReadSize();
      if size.None? {
        return None;
      }
      ghost var start := data;
      var temp: seq<Val> := [];
      var i := 0;
      ghost var vs: seq<Val> := [];
      while i < size.value
        invariant 0 <= i <= size.value && |vs| == i
        invariant DecodeN(true, elem, i, buf, start) == Some((vs, data))
        invariant temp == Filled(kind, vs)
      {
        ghost var before := data;
        var v := Read(elem);
        if v.None? {
          DecodeNFails(elem, i + 1, size.value, buf, start);
          return None;
        }
        DecodeNSnoc(elem, i, buf, start, vs, before, v.value, data);
        match kind {
          case Back => temp := temp + [v.value];
          case Front => temp := [v.value] + temp;
          case Keyed => temp := Insert(temp, v.value);
        }
        FilledSnoc(kind, vs, v.value);
        vs := vs + [v.value];
        i := i + 1;
      }
      return Some(temp);
    }

    /** `Read` of any supported type: what `Decode` says, the second half of a
        pair before the first. */
    method Read(ty: Ty) returns (r: Option<Val>)
      modifies this`data
      ensures match Decode(true, ty, buf, old(data))
              case None => r.None?
              case Some((v, p)) => r == Some(v) && data == p
      decreases ty, 0
    {
      match ty
      case Prim(size) =>
        var b := Get(size);
        return if b.Some? then Some(Bytes(b.value)) else None;
      case Text(width) =>
        var b := ReadText(width);
        return if b.Some? then Some(Bytes(b.value)) else None;
      case Pair(a, b) =>
        var y := Read(b);
        if y.None? {
          return None;
        }
        var x := Read(a);
        return if x.Some? then Some(Two(x.value, y.value)) else None;
      case Listed(t) =>
        var vs := ReadElements(Back, t);
        return if vs.Some? then Some(Many(vs.value)) else None;
      case Forward(t) =>
        var vs := ReadElements(Front, t);
        return if vs.Some? then Some(Many(vs.value)) else None;
      case Mapped(e) =>
        var vs := ReadElements(Keyed, e);
        return if vs.Some? then Some(Many(vs.value)) else None;
      case FileData(width) =>
        r := ReadFileData(width);
    }

    method ReadFileData(width: nat) returns (r: Option<Val>)
      modifies this`data
      ensures match Decode(true, FileData(width), buf, old(data))
              case None => r.None?
              case Some((v, p)) => r == Some(v) && data == p
    {
      var name := ReadText(width);
      if name.None? {
        return None;
      }
      var date := Get(SYSTEM_TIME);
      if date.None? {
        return None;
      }
      var size := Get(DWORD64);
      return if size.Some? then Some(File(name.value, date.value, size.value)) else None;
    }
  }

  /** What one program writes into a message sized by `SizeType`, another reads
      back: the message is filled exactly to its end, no cursor passes it, and
      the values come back in order, forward lists reversed. */
  method Exchange(typ: nat, msg: nat, ta: Ty, a: Val, tb: Ty, b: Val)
    returns (full: bool, x: Option<Val>, y: Option<Val>, ended: bool)
    requires typ < SHORT_RANGE && msg < SHORT_RANGE
    requires HasType(ta, a) && HasType(tb, b)
    requires SizeType(ta, a) + SizeType(tb, b) < UINT_RANGE
    ensures full && ended && x == Some(Mirror(ta, a)) && y == Some(Mirror(tb, b))
  {
    SmallFits(ta, a);
    SmallFits(tb, b);
    SizeTypeExact(ta, a);
    SizeTypeExact(tb, b);
    var capacity := SizeType(ta, a) + SizeType(tb, b);
    var buf := new Byte[MSG_OFFSET + capacity](_ => 0);
    var writer := new MsgStreamWriter(buf, capacity, typ, msg);
    ghost var before, ea, eb := buf[..], Emit(ta, a), Emit(tb, b);
    writer.Write(ta, a);
    writer.Write(tb, b);
    SpliceSplice(before, MSG_OFFSET, ea, eb);
    SpliceAt(before, MSG_OFFSET, ea + eb);
    full := writer.End();
    var received := buf[..];
    AtSplit(received, MSG_OFFSET, ea, eb);
    RoundTrip(ta, a, received, MSG_OFFSET);
    RoundTrip(tb, b, received, MSG_OFFSET + |ea|);
    var reader := new MsgStreamReader(received);
    x := reader.Read(ta);
    y := reader.Read(tb);
    ended := reader.data == |received|;
  }

  /** What `SizeType` can announce in a `UINT` has only strings that fit. */
  lemma {:induction false} SmallFits(ty: Ty, v: Val)
    requires HasType(ty, v) && SizeType(ty, v) < UINT_RANGE
    ensures Fits(ty, v)
    decreases ty, 0
  {
    match ty
    case Prim(_) =>
    case Text(_) =>
    case Pair(a, b) =>
      SmallFits(a, v.first);
      SmallFits(b, v.second);
    case Listed(t) => SmallAllFit(t, v.elems);
    case Forward(t) => SmallAllFit(t, v.elems);
    case Mapped(e) => SmallAllFit(e, v.elems);
    case FileData(_) =>
  }

  lemma {:induction false} SmallAllFit(ty: Ty, vs: seq<Val>)
    requires AllType(ty, vs) && SizeAll(ty, vs) < UINT_RANGE
    ensures AllFit(ty, vs)
    decreases ty, 1 + |vs|
  {
    if vs != [] {
      SmallAllFit(ty, vs[..|vs| - 1]);
      SmallFits(ty, vs[|vs| - 1]);
      AllFitSnoc(ty, vs);
    }
  }
}
