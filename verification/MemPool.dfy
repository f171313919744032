/** `MemPool.h`: a growable pool of equal slots. The free slots are linked
    through a field that lies in each slot, behind the room for the element. */
module MemPools {

  /** `sizeof(Element*)`, the size of the link field. */
  const OFFSET: nat := 8

  const NULL: int := 0

  /** One buffer from the allocator. `begin` and `end` are the addresses of the
      first and last link field in it. */
  datatype Node = Node(bufferSize: nat, data: int, begin: int, end: int)

  // ------------------------------------------------------------- layout

  /** Room for an element, so that element and link field together are a multiple of the alignment. */
  function ElementSizeMax(elementSize: nat, alignment: nat): (m: nat)
    requires alignment >= 1
    ensures m >= elementSize
    ensures (m + OFFSET) % alignment == 0
    ensures m + OFFSET < elementSize + OFFSET + alignment
  {
    RoundUp(elementSize + OFFSET, alignment);
    ((elementSize + OFFSET + alignment - 1) / alignment) * alignment - OFFSET
  }

  lemma RoundUp(size: nat, alignment: nat)
    requires alignment >= 1
    ensures var r := ((size + alignment - 1) / alignment) * alignment;
            size <= r < size + alignment && r % alignment == 0
  {
    var q := (size + alignment - 1) / alignment;
    assert size + alignment - 1 == q * alignment + (size + alignment - 1) % alignment;
    MultipleModZero(q, alignment);
  }

  lemma MultipleModZero(q: int, m: nat)
    requires m >= 1
    ensures (q * m) % m == 0 && (q * m) / m == q
  {
    var d, r := (q * m) / m, (q * m) % m;
    assert (q - d) * m == r;
    assert q - d >= 1 ==> (q - d) * m >= m;
    assert q - d <= -1 ==> (q - d) * m <= -1 * m;
  }

  function NodeFor(esm: nat, base: int, count: nat): Node
    requires count >= 1
  {
    Node((esm + OFFSET) * count, base, base + esm, base + esm + (esm + OFFSET) * count - (esm + OFFSET))
  }

  function Count(esm: nat, n: Node): nat {
    n.bufferSize / (esm + OFFSET)
  }

  ghost predicate NodeOk(esm: nat, n: Node) {
    n.data > NULL && Count(esm, n) >= 1 && n == NodeFor(esm, n.data, Count(esm, n))
  }

  /** The address of the `i`-th link field of a buffer. */
  function SlotAt(esm: nat, n: Node, i: int): int {
    n.begin + i * (esm + OFFSET)
  }

  function Slots(esm: nat, n: Node): (s: seq<int>)
    ensures |s| == Count(esm, n)
    ensures forall i :: 0 <= i < |s| ==> s[i] == SlotAt(esm, n, i)
  {
    seq(Count(esm, n), i => SlotAt(esm, n, i))
  }

  lemma NodeForOk(esm: nat, base: int, count: nat)
    requires base > NULL && count >= 1
    ensures NodeOk(esm, NodeFor(esm, base, count)) && Count(esm, NodeFor(esm, base, count)) == count
  {
    MultipleModZero(count, esm + OFFSET);
  }

  lemma SlotOrder(esm: nat, n: Node, i: int, j: int)
    requires i < j
    ensures SlotAt(esm, n, i) + esm + OFFSET <= SlotAt(esm, n, j)
  {
    assert (j - i - 1) * (esm + OFFSET) >= 0;
    assert j * (esm + OFFSET) == i * (esm + OFFSET) + (esm + OFFSET) + (j - i - 1) * (esm + OFFSET);
  }

  /** Different slots of one buffer have different, non-null addresses, each one
      stride from the next. */
  lemma SlotsDistinct(esm: nat, n: Node)
    requires NodeOk(esm, n)
    ensures NoDuplicates(Slots(esm, n))
    ensures Slots(esm, n)[0] == n.begin && Slots(esm, n)[Count(esm, n) - 1] == n.end
    ensures forall i :: 0 <= i < Count(esm, n) ==> Slots(esm, n)[i] != NULL
    ensures forall i :: 0 <= i < Count(esm, n) - 1 ==> Slots(esm, n)[i + 1] == Slots(esm, n)[i] + (esm + OFFSET)
  {
    var s := Slots(esm, n);
    forall i, j | 0 <= i < j < |s| ensures s[i] != s[j] {
      SlotOrder(esm, n, i, j);
    }
    forall i | 0 <= i < |s| ensures s[i] != NULL {
      SlotInside(esm, n, i);
    }
    SlotInside(esm, n, |s| - 1);
    forall i | 0 <= i < |s| - 1 ensures s[i + 1] == s[i] + (esm + OFFSET) {
      assert (i + 1) * (esm + OFFSET) == i * (esm + OFFSET) + (esm + OFFSET);
    }
  }

  /** Every slot lies in its buffer: the element in front of the link field and
      the link field itself. The first and last are where `begin` and `end` say. */
  lemma SlotInside(esm: nat, n: Node, i: int)
    requires NodeOk(esm, n) && 0 <= i < Count(esm, n)
    ensures n.data <= SlotAt(esm, n, i) - esm
    ensures SlotAt(esm, n, i) + OFFSET <= n.data + n.bufferSize
    ensures n.begin <= SlotAt(esm, n, i) <= n.end
    ensures n.end == SlotAt(esm, n, Count(esm, n) - 1)
  {
    var stride, last := esm + OFFSET, Count(esm, n) - 1;
    assert stride * (last + 1) == last * stride + stride;
    assert n.end == SlotAt(esm, n, last);
    if i < last {
      SlotOrder(esm, n, i, last);
    }
    if 0 < i {
      SlotOrder(esm, n, 0, i);
    }
  }

  /** Elements are aligned whenever the buffer is. */
  lemma SlotAligned(esm: nat, alignment: nat, n: Node, i: int)
    requires alignment >= 1 && (esm + OFFSET) % alignment == 0
    requires NodeOk(esm, n) && n.data % alignment == 0
    ensures (SlotAt(esm, n, i) - esm) % alignment == 0
  {
    var stride := esm + OFFSET;
    var q, d := stride / alignment, n.data / alignment;
    assert stride == q * alignment && n.data == d * alignment;
    MulRegroup(i, q, alignment);
    MulSum(d, i * q, alignment);
    assert SlotAt(esm, n, i) - esm == (d + i * q) * alignment;
    MultipleModZero(d + i * q, alignment);
  }

  lemma MulRegroup(a: int, b: int, c: int)
    ensures a * (b * c) == (a * b) * c
  {
  }

  lemma MulSum(a: int, b: int, c: int)
    ensures (a + b) * c == a * c + b * c
  {
  }

  // ------------------------------------------------------------- the pool as a value

  /** `free` are the link addresses along the free list, `live` those of the
      blocks in use. */
  datatype Pool = Pool(esm: nat, free: seq<int>, live: set<int>, nodes: seq<Node>, capacity: nat)

  function Elements(s: seq<int>): set<int> {
    set a | a in s
  }

  function AllSlots(esm: nat, nodes: seq<Node>): set<int> {
    if nodes == [] then {}
    else AllSlots(esm, nodes[..|nodes| - 1]) + Elements(Slots(esm, nodes[|nodes| - 1]))
  }

  function TotalCount(esm: nat, nodes: seq<Node>): nat {
    if nodes == [] then 0 else TotalCount(esm, nodes[..|nodes| - 1]) + Count(esm, nodes[|nodes| - 1])
  }

  /** A buffer the allocator may return: not the null address and apart from those in use. */
  ghost predicate FreshBuffer(nodes: seq<Node>, base: int, size: nat) {
    && base > NULL
    && forall k :: 0 <= k < |nodes| ==> Apart(nodes[k], base, size)
  }

  ghost predicate Apart(n: Node, base: int, size: nat) {
    n.data + n.bufferSize <= base || base + size <= n.data
  }

  ghost predicate NoDuplicates(s: seq<int>) {
    forall i, j :: 0 <= i < j < |s| ==> s[i] != s[j]
  }

  ghost predicate Inv(p: Pool) {
    && |p.nodes| >= 1
    && (forall k :: 0 <= k < |p.nodes| ==> NodeOk(p.esm, p.nodes[k]))
    && (forall j, k :: 0 <= j < k < |p.nodes| ==>
          Apart(p.nodes[j], p.nodes[k].data, p.nodes[k].bufferSize))
    && NoDuplicates(p.free)
    && (forall a :: a in p.free ==> a !in p.live)
    && Elements(p.free) + p.live == AllSlots(p.esm, p.nodes)
    && p.capacity == TotalCount(p.esm, p.nodes)
  }

  function Grown(p: Pool, count: nat, base: int): Pool
    requires count >= 1
  {
    var n := NodeFor(p.esm, base, count);
    p.(free := Slots(p.esm, n) + p.free, nodes := p.nodes + [n], capacity := p.capacity + count)
  }

  /** A pool with something to hand out: one that was full has doubled. */
  function Stocked(p: Pool, base: int): Pool {
    if p.free == [] && p.capacity >= 1 then Grown(p, p.capacity, base) else p
  }

  function Allocated(p: Pool, elementSize: nat, base: int): (Pool, int) {
    var q := Stocked(p, base);
    if elementSize > p.esm || q.free == [] then (p, NULL)
    else (q.(free := q.free[1..], live := q.live + {q.free[0]}), q.free[0] - p.esm)
  }

  function Deallocated(p: Pool, block: int): Pool {
    if block == NULL then p
    else p.(free := [block + p.esm] + p.free, live := p.live - {block + p.esm})
  }

  lemma {:induction false} SlotOwner(esm: nat, nodes: seq<Node>, a: int)
    ensures a in AllSlots(esm, nodes) <==> exists k :: 0 <= k < |nodes| && a in Slots(esm, nodes[k])
    decreases |nodes|
  {
    if nodes != [] {
      var last := |nodes| - 1;
      SlotOwner(esm, nodes[..last], a);
      if a in AllSlots(esm, nodes[..last]) {
        var k :| 0 <= k < last && a in Slots(esm, nodes[..last][k]);
        assert a in Slots(esm, nodes[k]);
      }
      if k :| 0 <= k < |nodes| && a in Slots(esm, nodes[k]) {
        assert k < last ==> nodes[..last][k] == nodes[k];
      }
    }
  }

  /** Link addresses are never null and lie in the buffer of their node. */
  lemma OwnedAddress(p: Pool, a: int) returns (k: nat, i: nat)
    requires Inv(p) && a in AllSlots(p.esm, p.nodes)
    ensures k < |p.nodes| && i < Count(p.esm, p.nodes[k]) && a == SlotAt(p.esm, p.nodes[k], i)
    ensures p.nodes[k].data <= a - p.esm && a + OFFSET <= p.nodes[k].data + p.nodes[k].bufferSize
    ensures a - p.esm > NULL
  {
    SlotOwner(p.esm, p.nodes, a);
    k :| 0 <= k < |p.nodes| && a in Slots(p.esm, p.nodes[k]);
    i :| 0 <= i < |Slots(p.esm, p.nodes[k])| && Slots(p.esm, p.nodes[k])[i] == a;
    SlotInside(p.esm, p.nodes[k], i);
  }

  /** Two different blocks of the pool, in use or not, do not overlap: neither
      their elements nor their link fields. */
  lemma {:induction false} BlocksApart(p: Pool, a: int, b: int)
    requires Inv(p) && a in AllSlots(p.esm, p.nodes) && b in AllSlots(p.esm, p.nodes) && a != b
    ensures a + OFFSET <= b - p.esm || b + OFFSET <= a - p.esm
  {
    var j, i := OwnedAddress(p, a);
    var k, l := OwnedAddress(p, b);
    if j == k {
      if i < l {
        SlotOrder(p.esm, p.nodes[j], i, l);
      } else {
        SlotOrder(p.esm, p.nodes[j], l, i);
      }
    } else if j < k {
      assert Apart(p.nodes[j], p.nodes[k].data, p.nodes[k].bufferSize);
    } else {
      assert Apart(p.nodes[k], p.nodes[j].data, p.nodes[j].bufferSize);
    }
  }

  // ------------------------------------------------------------- what every operation keeps

  lemma GrownInv(p: Pool, count: nat, base: int)
    requires Inv(p) && count >= 1 && FreshBuffer(p.nodes, base, (p.esm + OFFSET) * count)
    ensures Inv(Grown(p, count, base))
  {
    GrownStart(p, count, base);
    var n, q := NodeFor(p.esm, base, count), Grown(p, count, base);
    NodeForOk(p.esm, base, count);
    assert q.nodes[..|p.nodes|] == p.nodes;
    assert forall a :: a in q.free <==> a in Slots(p.esm, n) || a in p.free;
    assert Elements(q.free) == Elements(Slots(p.esm, n)) + Elements(p.free);
    assert forall j :: 0 <= j < |p.nodes| ==> Apart(p.nodes[j], n.data, n.bufferSize);
    assert p.live <= AllSlots(p.esm, p.nodes);
    assert forall a :: a in q.free ==> a !in q.live;
  }

  /** No address in a fresh buffer belongs to a slot. */
  lemma NotOwned(p: Pool, a: int, base: int, size: nat)
    requires Inv(p) && FreshBuffer(p.nodes, base, size)
    requires base <= a - p.esm && a + OFFSET <= base + size
    ensures a !in AllSlots(p.esm, p.nodes)
  {
    if a in AllSlots(p.esm, p.nodes) {
      var k, l := OwnedAddress(p, a);
      assert false;
    }
  }

  /** The slots of a fresh buffer are new. */
  lemma GrownStart(p: Pool, count: nat, base: int)
    requires Inv(p) && count >= 1 && FreshBuffer(p.nodes, base, (p.esm + OFFSET) * count)
    ensures var n := NodeFor(p.esm, base, count);
            && (forall a :: a in Slots(p.esm, n) ==> a !in AllSlots(p.esm, p.nodes))
            && NoDuplicates(Slots(p.esm, n) + p.free)
  {
    var n := NodeFor(p.esm, base, count);
    NodeForOk(p.esm, base, count);
    var s := Slots(p.esm, n);
    forall i | 0 <= i < |s| ensures s[i] !in AllSlots(p.esm, p.nodes) {
      SlotInside(p.esm, n, i);
      NotOwned(p, s[i], base, n.bufferSize);
    }
    var f := s + p.free;
    forall i, j | 0 <= i < j < |f| ensures f[i] != f[j] {
      if j < |s| {
        SlotOrder(p.esm, n, i, j);
      } else if i < |s| {
        assert f[j] == p.free[j - |s|] && f[j] in AllSlots(p.esm, p.nodes);
      } else {
        assert f[i] == p.free[i - |s|] && f[j] == p.free[j - |s|];
      }
    }
  }

  lemma CapacityPositive(p: Pool)
    requires Inv(p)
    ensures p.capacity >= 1
  {
    assert NodeOk(p.esm, p.nodes[|p.nodes| - 1]);
  }

  /** What an allocation hands out was free or is new, and is not null. */
  lemma AllocatedInv(p: Pool, elementSize: nat, base: int)
    requires Inv(p) && Legal(p, Alloc(elementSize, base))
    ensures var (q, block) := Allocated(p, elementSize, base);
            && Inv(q)
            && (elementSize <= p.esm ==>
                  && block > NULL && block + p.esm !in p.live && q.live == p.live + {block + p.esm})
            && (elementSize > p.esm ==> block == NULL && q == p)
  {
    if elementSize <= p.esm {
      StockedInv(p, base);
      var q := Stocked(p, base);
      assert q.free[0] in q.free;
      var k, i := OwnedAddress(q, q.free[0]);
      PoppedInv(q);
    }
  }

  lemma StockedInv(p: Pool, base: int)
    requires Inv(p)
    requires p.free == [] ==> FreshBuffer(p.nodes, base, (p.esm + OFFSET) * p.capacity)
    ensures Inv(Stocked(p, base)) && Stocked(p, base).free != [] && Stocked(p, base).live == p.live
  {
    CapacityPositive(p);
    if p.free == [] {
      GrownInv(p, p.capacity, base);
      NodeForOk(p.esm, base, p.capacity);
    }
  }

  lemma PoppedInv(q: Pool)
    requires Inv(q) && q.free != []
    ensures Inv(q.(free := q.free[1..], live := q.live + {q.free[0]}))
    ensures q.free[0] !in q.live
  {
    var rest := q.free[1..];
    assert q.free[0] in q.free;
    assert forall a :: a in q.free <==> a == q.free[0] || a in rest;
    assert Elements(q.free) == {q.free[0]} + Elements(rest);
    assert forall i :: 0 <= i < |rest| ==> rest[i] == q.free[i + 1];
  }

  lemma DeallocatedInv(p: Pool, block: int)
    requires Inv(p) && (block == NULL || block + p.esm in p.live)
    ensures Inv(Deallocated(p, block))
  {
    if block != NULL {
      var q, a := Deallocated(p, block), block + p.esm;
      assert forall x :: x in q.free <==> x == a || x in p.free;
      assert Elements(q.free) == {a} + Elements(p.free);
    }
  }

  // ------------------------------------------------------------- runs

  datatype Op = Alloc(elementSize: nat, base: int) | Dealloc(block: int) | Reserve(count: nat, base: int)

  function Apply(p: Pool, op: Op): Pool
    requires op.Reserve? ==> op.count >= 1
  {
    match op
    case Alloc(size, base) => Allocated(p, size, base).0
    case Dealloc(block) => Deallocated(p, block)
    case Reserve(count, base) => Grown(p, count, base)
  }

  /** What the callers and the allocator keep to. */
  ghost predicate Legal(p: Pool, op: Op) {
    match op
    case Alloc(size, base) =>
      size <= p.esm && p.free == [] ==> FreshBuffer(p.nodes, base, (p.esm + OFFSET) * p.capacity)
    case Dealloc(block) => block == NULL || block + p.esm in p.live
    case Reserve(count, base) => count >= 1 && FreshBuffer(p.nodes, base, (p.esm + OFFSET) * count)
  }

  /** `trace` is the sequence of states of a legal run of `ops`. */
  ghost predicate IsRun(trace: seq<Pool>, ops: seq<Op>) {
    && |trace| == |ops| + 1
    && forall i :: 0 <= i < |ops| ==> Legal(trace[i], ops[i]) && trace[i + 1] == Apply(trace[i], ops[i])
  }

  function Initial(esm: nat, count: nat, base: int): Pool
    requires count >= 1
  {
    var n := NodeFor(esm, base, count);
    Pool(esm, Slots(esm, n), {}, [n], count)
  }

  lemma InitialInv(esm: nat, count: nat, base: int)
    requires base > NULL && count >= 1
    ensures Inv(Initial(esm, count, base))
  {
    var p, n := Initial(esm, count, base), NodeFor(esm, base, count);
    NodeForOk(esm, base, count);
    assert p.nodes[..0] == [];
    assert AllSlots(esm, p.nodes) == Elements(Slots(esm, n));
    assert TotalCount(esm, p.nodes) == count;
    forall i, j | 0 <= i < j < |p.free| ensures p.free[i] != p.free[j] {
      SlotOrder(esm, n, i, j);
    }
  }

  lemma ApplyInv(p: Pool, op: Op)
    requires Inv(p) && Legal(p, op)
    ensures Inv(Apply(p, op))
  {
    match op
    case Alloc(size, base) => AllocatedInv(p, size, base);
    case Dealloc(block) => DeallocatedInv(p, block);
    case Reserve(count, base) => GrownInv(p, count, base);
  }

  /** After any legal sequence of operations the invariant holds. */
  lemma {:induction false} RunInv(trace: seq<Pool>, ops: seq<Op>, i: nat)
    requires IsRun(trace, ops) && Inv(trace[0]) && i < |trace|
    ensures Inv(trace[i])
  {
    if i > 0 {
      RunInv(trace, ops, i - 1);
      ApplyInv(trace[i - 1], ops[i - 1]);
    }
  }

  // ------------------------------------------------------------- what a pool is good for

  /** A pool with room for elements of the given size, every buffer of which is
      aligned whenever `aligned` says so of the allocator. */
  ghost predicate GoodFor(p: Pool, elementSize: nat, alignment: nat, aligned: bool)
    requires alignment >= 1
  {
    && p.esm >= elementSize && (p.esm + OFFSET) % alignment == 0
    && (aligned ==> forall k :: 0 <= k < |p.nodes| ==> p.nodes[k].data % alignment == 0)
  }

  /** The allocator gives an aligned buffer wherever the operation asks for one. */
  ghost predicate AlignedOp(op: Op, alignment: nat)
    requires alignment >= 1
  {
    match op
    case Alloc(_, base) => base % alignment == 0
    case Dealloc(_) => true
    case Reserve(_, base) => base % alignment == 0
  }

  lemma ApplyGoodFor(p: Pool, op: Op, elementSize: nat, alignment: nat, aligned: bool)
    requires alignment >= 1 && Legal(p, op) && (aligned ==> AlignedOp(op, alignment))
    requires GoodFor(p, elementSize, alignment, aligned)
    ensures GoodFor(Apply(p, op), elementSize, alignment, aligned)
  {
  }

  lemma {:induction false} RunGoodFor(trace: seq<Pool>, ops: seq<Op>, elementSize: nat, alignment: nat, count: nat,
                                      base: int, aligned: bool, i: nat)
    requires alignment >= 1 && base > NULL && count >= 1 && i < |trace| && IsRun(trace, ops)
    requires trace[0] == Initial(ElementSizeMax(elementSize, alignment), count, base)
    requires aligned ==> base % alignment == 0 && forall k :: 0 <= k < |ops| ==> AlignedOp(ops[k], alignment)
    ensures Inv(trace[i]) && GoodFor(trace[i], elementSize, alignment, aligned)
  {
    InitialInv(ElementSizeMax(elementSize, alignment), count, base);
    RunInv(trace, ops, i);
    if i > 0 {
      RunGoodFor(trace, ops, elementSize, alignment, count, base, aligned, i - 1);
      ApplyGoodFor(trace[i - 1], ops[i - 1], elementSize, alignment, aligned);
    }
  }

  /** A block for an element: in some buffer with the whole of its size, apart
      from every block in use, and aligned if the buffers are. */
  ghost predicate GoodBlock(p: Pool, q: Pool, block: int, elementSize: nat, alignment: nat, aligned: bool)
    requires alignment >= 1
  {
    && block != NULL
    && (exists k :: 0 <= k < |q.nodes| && q.nodes[k].data <= block
          && block + elementSize <= q.nodes[k].data + q.nodes[k].bufferSize)
    && (forall a :: a in p.live ==> block + elementSize <= a - q.esm || a - q.esm + elementSize <= block)
    && (aligned ==> block % alignment == 0)
  }

  lemma GoodAlloc(p: Pool, elementSize: nat, alignment: nat, aligned: bool, size: nat, base: int)
    requires alignment >= 1 && Inv(p) && GoodFor(p, elementSize, alignment, aligned)
    requires size <= elementSize && Legal(p, Alloc(size, base)) && (aligned ==> base % alignment == 0)
    ensures var (q, block) := Allocated(p, size, base); GoodBlock(p, q, block, elementSize, alignment, aligned)
  {
    AllocatedInv(p, size, base);
    ApplyGoodFor(p, Alloc(size, base), elementSize, alignment, aligned);
    var (q, block) := Allocated(p, size, base);
    hide Allocated;
    assert block + q.esm in q.live && block + q.esm in AllSlots(q.esm, q.nodes);
    var k, j := OwnedAddress(q, block + q.esm);
    assert q.nodes[k].data <= block && block + elementSize <= q.nodes[k].data + q.nodes[k].bufferSize;
    forall a | a in p.live
      ensures block + elementSize <= a - q.esm || a - q.esm + elementSize <= block
    {
      assert a in q.live && a in AllSlots(q.esm, q.nodes);
      BlocksApart(q, a, block + q.esm);
    }
    if aligned {
      SlotAligned(q.esm, alignment, q.nodes[k], j);
    }
  }

  /** In every legal run of a pool made for elements of a size and alignment, an
      allocation of up to that size succeeds, and its block is good for one. */
  lemma {:induction false} AllocFits(trace: seq<Pool>, ops: seq<Op>, elementSize: nat, alignment: nat, count: nat,
                                     base: int, aligned: bool, i: nat, size: nat, newBase: int)
    requires alignment >= 1 && base > NULL && count >= 1 && i < |trace| && IsRun(trace, ops)
    requires trace[0] == Initial(ElementSizeMax(elementSize, alignment), count, base)
    requires aligned ==> base % alignment == 0 && newBase % alignment == 0
    requires aligned ==> forall k :: 0 <= k < |ops| ==> AlignedOp(ops[k], alignment)
    requires size <= elementSize && Legal(trace[i], Alloc(size, newBase))
    ensures var (q, block) := Allocated(trace[i], size, newBase);
            && block != NULL && GoodBlock(trace[i], q, block, elementSize, alignment, aligned)
  {
    RunGoodFor(trace, ops, elementSize, alignment, count, base, aligned, i);
    hide Allocated, Inv, GoodFor, Legal;
    GoodAlloc(trace[i], elementSize, alignment, aligned, size, newBase);
  }

  /** What is given back is what comes next: the pool is as it was before. */
  lemma FreedComesNext(p: Pool, block: int, size: nat, base: int)
    requires block != NULL && block + p.esm in p.live && size <= p.esm
    ensures Allocated(Deallocated(p, block), size, base) == (p, block)
  {
    var q := Deallocated(p, block);
    assert q.free[1..] == p.free;
    assert q.live + {block + p.esm} == p.live;
  }

  function Pow2(k: nat): nat {
    if k == 0 then 1 else 2 * Pow2(k - 1)
  }

  /** Without `Reserve` the capacity is the initial one doubled once per further node. */
  lemma {:induction false} RunDoubles(trace: seq<Pool>, ops: seq<Op>, esm: nat, initial: nat, base: int, i: nat)
    requires IsRun(trace, ops) && i < |trace|
    requires base > NULL && initial >= 1 && trace[0] == Initial(esm, initial, base)
    requires forall k :: 0 <= k < |ops| ==> !ops[k].Reserve?
    ensures |trace[i].nodes| >= 1 && trace[i].capacity == initial * Pow2(|trace[i].nodes| - 1)
  {
    if i > 0 {
      RunDoubles(trace, ops, esm, initial, base, i - 1);
      InitialInv(esm, initial, base);
      RunInv(trace, ops, i - 1);
      StepDoubles(trace[i - 1], ops[i - 1], initial);
    }
  }

  lemma StepDoubles(p: Pool, op: Op, initial: nat)
    requires Inv(p) && Legal(p, op) && !op.Reserve?
    requires p.capacity == initial * Pow2(|p.nodes| - 1)
    ensures |Apply(p, op).nodes| >= 1
    ensures Apply(p, op).capacity == initial * Pow2(|Apply(p, op).nodes| - 1)
  {
    CapacityPositive(p);
    var e := |p.nodes| - 1;
    assert Pow2(e + 1) == 2 * Pow2(e);
    assert initial * Pow2(e + 1) == 2 * (initial * Pow2(e));
    assert |Stocked(p, if op.Alloc? then op.base else 0).nodes| in {e + 1, e + 2};
  }

  // ------------------------------------------------------------- the free list in memory

  /** The links from `head` spell out `list` and end in null. */
  ghost predicate Chain(next: map<int, int>, head: int, list: seq<int>)
    decreases |list|
  {
    if list == [] then head == NULL
    else head == list[0] != NULL && head in next && Chain(next, next[head], list[1..])
  }

  lemma {:induction false} ChainFrame(next: map<int, int>, changed: map<int, int>, head: int, list: seq<int>)
    requires Chain(next, head, list)
    requires forall a :: a in list && a in next ==> a in changed && changed[a] == next[a]
    ensures Chain(changed, head, list)
    decreases |list|
  {
    if list != [] {
      assert list[0] in list;
      assert forall a :: a in list[1..] ==> a in list;
      ChainFrame(next, changed, next[head], list[1..]);
    }
  }

  /** The first `k` of `slots` are linked each to the next. */
  ghost predicate Threaded(next: map<int, int>, slots: seq<int>, k: nat) {
    k < |slots| && forall i :: 0 <= i < k ==> slots[i] in next && next[slots[i]] == slots[i + 1]
  }

  /** Slots linked in order, the last one to a chain, make one chain. */
  lemma {:induction false} ChainConcat(next: map<int, int>, slots: seq<int>, k: nat, head: int, list: seq<int>)
    requires k < |slots| && Chain(next, head, list) && Threaded(next, slots, |slots| - 1)
    requires forall i :: 0 <= i < |slots| ==> slots[i] != NULL
    requires slots[|slots| - 1] in next && next[slots[|slots| - 1]] == head
    ensures Chain(next, slots[k], slots[k..] + list)
    decreases |slots| - k
  {
    var rest := slots[k + 1..] + list;
    assert slots[k..] + list == [slots[k]] + rest;
    if k == |slots| - 1 {
      assert rest == list;
    } else {
      ChainConcat(next, slots, k + 1, head, list);
    }
  }

  class MemPool {
    const elementSizeMax: nat
    var avail: int
    var nodes: seq<Node>
    var capacity: nat
    /** The contents of the link fields, by address. */
    var next: map<int, int>
    ghost var free: seq<int>
    ghost var live: set<int>

    ghost function State(): Pool reads this {
      Pool(elementSizeMax, free, live, nodes, capacity)
    }

    ghost predicate Valid() reads this {
      Chain(next, avail, free) && Inv(State())
    }

    constructor (elementSize: nat, initialCapacity: nat, alignment: nat, base: int)
      requires alignment >= 1 && initialCapacity >= 1 && base > NULL
      ensures Valid()
      ensures State() == Initial(ElementSizeMax(elementSize, alignment), initialCapacity, base)
      ensures elementSize <= elementSizeMax < elementSize + alignment && (elementSizeMax + OFFSET) % alignment == 0
      ensures capacity == initialCapacity && live == {} && |free| == initialCapacity
      ensures forall i :: 0 <= i < initialCapacity ==> free[i] == base + elementSizeMax + i * (elementSizeMax + OFFSET)
      ensures |nodes| == 1 && nodes[0].data == base
      ensures nodes[0].bufferSize == (elementSizeMax + OFFSET) * initialCapacity
    {
      elementSizeMax := ElementSizeMax(elementSize, alignment);
      avail, nodes, capacity, next := NULL, [], initialCapacity, map[];
      free, live := [], {};
      new;
      var n := NodeFor(elementSizeMax, base, initialCapacity);
      NodeForOk(elementSizeMax, base, initialCapacity);
      Link(n, initialCapacity);
      nodes := [n];
      assert Slots(elementSizeMax, n) + [] == Slots(elementSizeMax, n);
      InitialInv(elementSizeMax, initialCapacity, base);
    }

    /** `Node::Link`: threads the slots of a new buffer onto the free list. The
        loop stops because it meets `end` exactly. */
    method Link(n: Node, count: nat)
      requires Chain(next, avail, free)
      requires NodeOk(elementSizeMax, n) && count == Count(elementSizeMax, n)
      requires forall a :: a in Slots(elementSizeMax, n) ==> a !in free
      modifies this`avail, this`next, this`free
      ensures Chain(next, avail, free) && free == Slots(elementSizeMax, n) + old(free)
    {
      ghost var slots := Slots(elementSizeMax, n);
      SlotsDistinct(elementSizeMax, n);
      if count > 1 {
        Thread(n.begin, n.end, elementSizeMax + OFFSET, slots);
      }
      ChainFrame(old(next), next, avail, free);
      Append(n.begin, n.end, slots);
    }

    /** The loop of `Link`. */
    method Thread(begin: int, end: int, stride: nat, ghost slots: seq<int>)
      requires |slots| >= 2 && slots[0] == begin && slots[|slots| - 1] == end && NoDuplicates(slots)
      requires forall i :: 0 <= i < |slots| - 1 ==> slots[i + 1] == slots[i] + stride
      modifies this`next
      ensures Threaded(next, slots, |slots| - 1)
      ensures forall a :: a in old(next) && a !in slots ==> a in next && next[a] == old(next[a])
    {
      assert slots[1] == begin + stride;
      next := next[begin := begin + stride];
      var ptr := begin + stride;
      var following := ptr + stride;
      ghost var k := 1;
      while ptr != end
        invariant 1 <= k <= |slots| - 1 && ptr == slots[k] && following == ptr + stride
        invariant Threaded(next, slots, k)
        invariant forall a :: a in old(next) && a !in slots ==> a in next && next[a] == old(next[a])
        decreases |slots| - k
      {
        assert slots[k] in slots;
        next := next[ptr := following];
        ptr := following;
        following := following + stride;
        k := k + 1;
      }
      assert k == |slots| - 1;
    }

    /** The end of `Link`: the last slot leads on to what was free before. */
    method Append(begin: int, end: int, ghost slots: seq<int>)
      requires |slots| >= 1 && slots[0] == begin && slots[|slots| - 1] == end && NoDuplicates(slots)
      requires forall i :: 0 <= i < |slots| ==> slots[i] != NULL && slots[i] !in free
      requires Chain(next, avail, free) && Threaded(next, slots, |slots| - 1)
      modifies this`avail, this`next, this`free
      ensures Chain(next, avail, free) && free == slots + old(free)
    {
      next := next[end := avail];
      ChainFrame(old(next), next, avail, free);
      ChainConcat(next, slots, 0, avail, free);
      avail := begin;
      free := slots + free;
      assert slots[0..] == slots;
    }

    method Grow(count: nat, base: int)
      requires Valid() && count >= 1
      requires FreshBuffer(nodes, base, (elementSizeMax + OFFSET) * count)
      modifies this
      ensures Valid() && State() == Grown(old(State()), count, base)
    {
      ghost var before := State();
      GrownStart(before, count, base);
      GrownInv(before, count, base);
      NodeForOk(elementSizeMax, base, count);
      var n := NodeFor(elementSizeMax, base, count);
      Link(n, count);
      nodes := nodes + [n];
      capacity := capacity + count;
      assert State() == Grown(before, count, base);
    }

    /** `PopAvail` */
    method PopAvail() returns (element: int)
      requires Chain(next, avail, free) && free != []
      modifies this`avail, this`free, this`live
      ensures Chain(next, avail, free) && element == old(free)[0]
      ensures free == old(free)[1..] && live == old(live) + {element}
    {
      element := avail;
      var following := next[avail];
      avail := if following != NULL then following else NULL;
      free := free[1..];
      live := live + {element};
    }

    /** `PushAvail` */
    method PushAvail(element: int)
      requires Chain(next, avail, free) && element !in free && element != NULL
      modifies this`avail, this`next, this`free, this`live
      ensures Chain(next, avail, free)
      ensures free == [element] + old(free) && live == old(live) - {element}
    {
      next := next[element := if avail != NULL then avail else NULL];
      ChainFrame(old(next), next, avail, free);
      avail := element;
      assert ([element] + free)[1..] == free;
      free := [element] + free;
      live := live - {element};
    }

    /** `alloc`. `base` is where the allocator puts a new buffer if one is needed. */
    method Alloc(elementSize: nat, base: int) returns (block: int)
      requires Valid()
      requires Legal(State(), Op.Alloc(elementSize, base))
      modifies this
      ensures Valid()
      ensures (State(), block) == Allocated(old(State()), elementSize, base)
    {
      ghost var before := State();
      AllocatedInv(before, elementSize, base);
      CapacityPositive(before);
      if elementSize > elementSizeMax {
        return NULL;
      }
      if avail == NULL {
        Grow(capacity, base);
        NodeForOk(elementSizeMax, base, before.capacity);
      }
      assert State() == Stocked(before, base);
      var element := PopAvail();
      block := element - elementSizeMax;
    }

    /** `dealloc` of null does nothing. */
    method Dealloc(block: int)
      requires Valid()
      requires Legal(State(), Op.Dealloc(block))
      modifies this
      ensures Valid() && State() == Deallocated(old(State()), block)
    {
      ghost var before := State();
      DeallocatedInv(before, block);
      if block != NULL {
        LiveNotNull(before, block + elementSizeMax);
        PushAvail(block + elementSizeMax);
      }
      assert State() == Deallocated(before, block);
    }

    method Reserve(count: nat, base: int)
      requires Valid()
      requires Legal(State(), Op.Reserve(count, base))
      modifies this
      ensures Valid() && State() == Grown(old(State()), count, base)
      ensures capacity == old(capacity) + count && |free| == |old(free)| + count && live == old(live)
    {
      NodeForOk(elementSizeMax, base, count);
      Grow(count, base);
    }

    /** `InPool`: whether the address is that of a block position in some buffer. */
    method InPool(block: int) returns (found: bool)
      ensures found <==> exists k :: 0 <= k < |nodes| && InNode(nodes[k], block + elementSizeMax)
    {
      var element := block + elementSizeMax;
      var i := 0;
      while i < |nodes|
        invariant 0 <= i <= |nodes|
        invariant forall k :: 0 <= k < i ==> !InNode(nodes[k], element)
      {
        if InNode(nodes[i], element) {
          return true;
        }
        i := i + 1;
      }
      return false;
    }
  }

  /** `Node::ElementInNode` */
  predicate InNode(n: Node, element: int) {
    n.begin <= element <= n.end
  }

  lemma LiveNotNull(p: Pool, a: int)
    requires Inv(p) && a in p.live
    ensures a != NULL && a !in p.free
  {
    assert a in AllSlots(p.esm, p.nodes);
    var k, i := OwnedAddress(p, a);
  }

  /** Every block handed out is found in the pool; no address outside the
      buffers is. */
  lemma {:induction false} InPoolExact(p: Pool, block: int)
    requires Inv(p)
    ensures block + p.esm in p.live ==> exists k :: 0 <= k < |p.nodes| && InNode(p.nodes[k], block + p.esm)
    ensures FreshBuffer(p.nodes, block, 1) ==>
              !exists k :: 0 <= k < |p.nodes| && InNode(p.nodes[k], block + p.esm)
  {
    if block + p.esm in p.live {
      var k, i := OwnedAddress(p, block + p.esm);
      SlotInside(p.esm, p.nodes[k], i);
      assert InNode(p.nodes[k], block + p.esm);
    }
    if FreshBuffer(p.nodes, block, 1) {
      forall k | 0 <= k < |p.nodes| ensures !InNode(p.nodes[k], block + p.esm) {
        assert Apart(p.nodes[k], block, 1);
        SlotInside(p.esm, p.nodes[k], 0);
      }
    }
  }
}
