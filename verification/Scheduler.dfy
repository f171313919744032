/** The server's distribution of work as a state machine: every handler and
    every round of a worker thread is one step. */
module Scheduler {
  import opened Basics

  type Client = nat

  datatype WorkInfo = WorkInfo(cursor: nat, size: nat, curIndex: nat)

  /** A piece of output and its place. */
  datatype Part = Part(index: nat, data: seq<Byte>)

  /** The data file with its cursor, and the chunks handed out so far: their
      number is the index of the next one. */
  datatype Source = Source(file: seq<Byte>, chunkSize: nat, pos: nat, cursorPos: nat, chunks: seq<seq<Byte>>)

  /** `readied`, `dropped` and the chunks themselves are kept for the proofs
      only: the clients that have announced themselves, and the work that is
      neither stored nor recorded as under way. */
  datatype State = State(
    fast: seq<Client>, other: seq<Client>,
    work: map<Client, WorkInfo>, oldWork: seq<WorkInfo>,
    parts: seq<Part>, source: Source,
    waiting: nat, finished: nat, output: Option<seq<Byte>>,
    readied: set<Client>, dropped: set<nat>)

  datatype Event =
    | Ready(client: Client)
    | GiveNew(sent: bool)
    | GiveOld(sent: bool, pos: nat)
    | Complete(client: Client, data: seq<Byte>, status: Status)
    | Disconnect(client: Client)
    | Finish

  /** `LoadData` */
  function Loaded(file: seq<Byte>, desired: nat): Source {
    Source(file, if |file| > desired then desired else |file|, 0, 0, [])
  }

  /** How many bytes the next read of a chunk returns. */
  function ReadSize(d: Source): nat {
    BytesRead(d, d.chunkSize)
  }

  /** How many bytes a read into a buffer of the given size returns. */
  function BytesRead(d: Source, buffSize: nat): nat {
    if d.pos >= |d.file| then 0 else Min(buffSize, |d.file| - d.pos)
  }

  /** `GetClientWork` when it reads `n` bytes. */
  function IssuedOf(d: Source, n: nat): (Source, WorkInfo)
    requires d.pos + n <= |d.file|
  {
    (d.(pos := d.pos + n, cursorPos := d.cursorPos + n, chunks := d.chunks + [d.file[d.pos..d.pos + n]]),
     WorkInfo(d.cursorPos + n, n, |d.chunks|))
  }

  function Issued(d: Source): (Source, WorkInfo)
    requires d.pos <= |d.file|
  {
    IssuedOf(d, ReadSize(d))
  }

  function Queue(s: State): seq<Client> {
    s.fast + s.other
  }

  /** `FindClientForWork`: fast clients first. */
  function Popped(s: State): (State, Client)
    requires Queue(s) != []
  {
    if s.fast != [] then (s.(fast := s.fast[1..]), s.fast[0]) else (s.(other := s.other[1..]), s.other[0])
  }

  /** Insertion into the set ordered by index: nothing happens when the index
      is there already. */
  function InsertPart(parts: seq<Part>, p: Part): (r: seq<Part>) {
    if parts == [] then [p]
    else if p.index < parts[0].index then [p] + parts
    else if p.index == parts[0].index then parts
    else [parts[0]] + InsertPart(parts[1..], p)
  }

  function Flatten(parts: seq<Part>): seq<Byte> {
    if parts == [] then [] else Flatten(parts[..|parts| - 1]) + parts[|parts| - 1].data
  }

  function Concat(chunks: seq<seq<Byte>>): seq<Byte> {
    if chunks == [] then [] else Concat(chunks[..|chunks| - 1]) + chunks[|chunks| - 1]
  }

  /** `EvaluateClient` */
  function Evaluated(s: State, c: Client, status: Status): State {
    match status
    case TOOSLOW => s
    case FAST => s.(fast := s.fast + [c])
    case NORMAL => s.(other := s.other + [c])
  }

  function Initial(file: seq<Byte>, desired: nat): State {
    State([], [], map[], [], [], Loaded(file, desired), 0, 0, None, {}, {})
  }

  predicate Enabled(s: State, e: Event) {
    match e
    case Ready(c) => c !in s.readied
    case GiveNew(_) => Queue(s) != [] && s.oldWork == []
    case GiveOld(_, pos) => Queue(s) != [] && s.oldWork != [] && pos <= |s.source.file|
    case Complete(_, _, _) => true
    case Disconnect(_) => true
    case Finish => s.waiting > 0 && s.work == map[] && s.oldWork == []
  }

  function Step(s: State, e: Event): State
    requires Enabled(s, e) && s.source.pos <= |s.source.file|
  {
    match e
    case Ready(c) =>
      s.(other := s.other + [c], readied := s.readied + {c})
    case GiveNew(sent) =>
      var (t, c) := Popped(s);
      if ReadSize(s.source) == 0 then t.(waiting := t.waiting + 1)
      else
        var (d, wi) := Issued(s.source);
        if sent then t.(source := d, work := t.work[c := wi])
        else t.(source := d, work := t.work - {c}, dropped := t.dropped + {wi.curIndex})
    case GiveOld(sent, pos) =>
      var (t, c) := Popped(s);
      var wi := s.oldWork[0];
      var u := t.(oldWork := s.oldWork[1..], source := s.source.(pos := pos));
      if sent then u.(work := t.work - {c}, dropped := t.dropped + {wi.curIndex})
      else u.(work := t.work[c := wi])
    case Complete(c, data, status) =>
      if c in s.work then
        Evaluated(s.(work := s.work - {c}, parts := InsertPart(s.parts, Part(s.work[c].curIndex, data))), c, status)
      else s
    case Disconnect(c) =>
      if c in s.work then s.(work := s.work - {c}, oldWork := s.oldWork + [s.work[c]]) else s
    case Finish =>
      s.(waiting := s.waiting - 1, finished := s.finished + 1,
         output := if s.finished == 0 then Some(Flatten(s.parts)) else s.output)
  }

  // ------------------------------------------------------------- what every step keeps

  ghost predicate Distinct<T>(q: seq<T>) {
    forall i, j :: 0 <= i < j < |q| ==> q[i] != q[j]
  }

  function WorkIndices(work: map<Client, WorkInfo>): set<nat> {
    set c | c in work :: work[c].curIndex
  }

  ghost predicate OnePerClient(work: map<Client, WorkInfo>) {
    forall c, d :: c in work && d in work && c != d ==> work[c].curIndex != work[d].curIndex
  }

  function OldIndices(oldWork: seq<WorkInfo>): set<nat> {
    set w | w in oldWork :: w.curIndex
  }

  ghost predicate OldDistinct(oldWork: seq<WorkInfo>) {
    forall i, j :: 0 <= i < j < |oldWork| ==> oldWork[i].curIndex != oldWork[j].curIndex
  }

  function PartIndices(parts: seq<Part>): set<nat> {
    set p | p in parts :: p.index
  }

  ghost predicate Sorted(parts: seq<Part>) {
    forall i, j :: 0 <= i < j < |parts| ==> parts[i].index < parts[j].index
  }

  /** The four places an issued index can be in. */
  ghost predicate Places(work: set<nat>, oldWork: set<nat>, stored: set<nat>, dropped: set<nat>, issued: nat) {
    && work !! oldWork && work !! stored && work !! dropped
    && oldWork !! stored && oldWork !! dropped && stored !! dropped
    && work + oldWork + stored + dropped == Below(issued)
  }

  function Below(n: nat): (r: set<nat>)
    ensures forall i: nat :: i in r <==> i < n
  {
    if n == 0 then {} else Below(n - 1) + {n - 1}
  }

  lemma PlacesIssue(a: set<nat>, b: set<nat>, c: set<nat>, d: set<nat>, n: nat)
    requires Places(a, b, c, d, n)
    ensures n !in a
    ensures Places(a + {n}, b, c, d, n + 1) && Places(a, b, c, d + {n}, n + 1)
  {
    assert Below(n + 1) == Below(n) + {n};
    assert n !in a + b + c + d;
  }

  lemma PlacesFromWork(a: set<nat>, b: set<nat>, c: set<nat>, d: set<nat>, n: nat, i: nat)
    requires Places(a, b, c, d, n) && i in a
    ensures i !in b && i !in c
    ensures Places(a - {i}, b + {i}, c, d, n) && Places(a - {i}, b, c + {i}, d, n)
  {
    assert (a - {i}) + (b + {i}) + c + d == a + b + c + d;
    assert (a - {i}) + b + (c + {i}) + d == a + b + c + d;
  }

  lemma PlacesFromOld(a: set<nat>, b: set<nat>, c: set<nat>, d: set<nat>, n: nat, i: nat)
    requires Places(a, b, c, d, n) && i in b
    ensures i !in a
    ensures Places(a + {i}, b - {i}, c, d, n) && Places(a, b - {i}, c, d + {i}, n)
  {
    assert (a + {i}) + (b - {i}) + c + d == a + b + c + d;
    assert a + (b - {i}) + c + (d + {i}) == a + b + c + d;
  }

  /** A queued client is queued once, has announced itself and holds no work. */
  ghost predicate ClientsInv(s: State) {
    && Distinct(Queue(s))
    && (forall c :: c in Queue(s) ==> c in s.readied && c !in s.work)
    && s.work.Keys <= s.readied
  }

  /** Every issued index is in exactly one place, at each of them once. */
  ghost predicate WorkInv(s: State) {
    && OnePerClient(s.work) && OldDistinct(s.oldWork) && Sorted(s.parts)
    && Places(WorkIndices(s.work), OldIndices(s.oldWork), PartIndices(s.parts), s.dropped, |s.source.chunks|)
  }

  ghost predicate Inv(s: State) {
    s.source.pos <= |s.source.file| && ClientsInv(s) && WorkInv(s)
  }

  lemma PoppedQueue(s: State)
    requires Queue(s) != []
    ensures Queue(s) == [Popped(s).1] + Queue(Popped(s).0)
  {
  }

  lemma PoppedClients(s: State)
    requires ClientsInv(s) && Queue(s) != []
    ensures var (t, c) := Popped(s);
            && c !in s.work && c in s.readied && ClientsInv(t)
            && c !in Queue(t)
  {
    PoppedQueue(s);
    var (t, c) := Popped(s);
    var q := Queue(t);
    assert Queue(s)[0] == c && forall i :: 0 <= i < |q| ==> q[i] == Queue(s)[i + 1];
    assert c in Queue(s);
  }

  lemma StepClients(s: State, e: Event)
    requires Enabled(s, e) && s.source.pos <= |s.source.file| && ClientsInv(s)
    ensures ClientsInv(Step(s, e))
  {
    match e
    case Ready(c) => QueueMore(s, c);
    case GiveNew(_) => PoppedClients(s);
    case GiveOld(_, _) => PoppedClients(s);
    case Complete(c, _, _) =>
      if c in s.work {
        QueueMore(s, c);
      }
    case Disconnect(_) =>
    case Finish =>
  }

  /** A client that is not queued can be put at the end of either queue. */
  lemma QueueMore(s: State, c: Client)
    requires Distinct(Queue(s)) && c !in Queue(s)
    ensures Distinct(s.fast + [c] + s.other) && Distinct(s.fast + (s.other + [c]))
    ensures forall d :: d in s.fast + [c] + s.other <==> d == c || d in Queue(s)
    ensures forall d :: d in s.fast + (s.other + [c]) <==> d == c || d in Queue(s)
  {
    var q, a, b := Queue(s), s.fast + [c] + s.other, s.fast + (s.other + [c]);
    var f := |s.fast|;
    forall i, j | 0 <= i < j < |a| ensures a[i] != a[j] {
      assert i != f ==> a[i] == q[if i < f then i else i - 1];
      assert j != f ==> a[j] == q[if j < f then j else j - 1];
    }
    forall i, j | 0 <= i < j < |b| ensures b[i] != b[j] {
      assert b[i] == q[i];
      assert j < |q| ==> b[j] == q[j];
    }
  }

  lemma WorkPut(work: map<Client, WorkInfo>, c: Client, wi: WorkInfo)
    requires OnePerClient(work) && c !in work && wi.curIndex !in WorkIndices(work)
    ensures OnePerClient(work[c := wi])
    ensures WorkIndices(work[c := wi]) == WorkIndices(work) + {wi.curIndex}
  {
    var w := work[c := wi];
    forall d | d in work ensures work[d].curIndex in WorkIndices(work) {
    }
    assert w[c].curIndex in WorkIndices(w);
    forall i | i in WorkIndices(work) ensures i in WorkIndices(w) {
      var d :| d in work && work[d].curIndex == i;
      assert d in w && w[d].curIndex == i;
    }
  }

  lemma WorkTaken(work: map<Client, WorkInfo>, c: Client)
    requires OnePerClient(work) && c in work
    ensures OnePerClient(work - {c}) && work[c].curIndex in WorkIndices(work)
    ensures WorkIndices(work - {c}) == WorkIndices(work) - {work[c].curIndex}
  {
    var w := work - {c};
    forall i | i in WorkIndices(work) && i != work[c].curIndex ensures i in WorkIndices(w) {
      var d :| d in work && work[d].curIndex == i;
      assert d in w && w[d].curIndex == i;
    }
  }

  lemma OldPopped(oldWork: seq<WorkInfo>)
    requires oldWork != [] && OldDistinct(oldWork)
    ensures OldDistinct(oldWork[1..]) && oldWork[0].curIndex in OldIndices(oldWork)
    ensures OldIndices(oldWork[1..]) == OldIndices(oldWork) - {oldWork[0].curIndex}
  {
    var rest := oldWork[1..];
    assert oldWork[0] in oldWork;
    forall i | i in OldIndices(rest) ensures i in OldIndices(oldWork) && i != oldWork[0].curIndex {
      var k :| 0 <= k < |rest| && rest[k].curIndex == i;
      assert oldWork[k + 1] == rest[k] && oldWork[k + 1] in oldWork;
    }
    forall i | i in OldIndices(oldWork) && i != oldWork[0].curIndex ensures i in OldIndices(rest) {
      var k :| 0 <= k < |oldWork| && oldWork[k].curIndex == i;
      assert rest[k - 1] == oldWork[k] && rest[k - 1] in rest;
    }
  }

  lemma OldPushed(oldWork: seq<WorkInfo>, wi: WorkInfo)
    requires OldDistinct(oldWork) && wi.curIndex !in OldIndices(oldWork)
    ensures OldDistinct(oldWork + [wi])
    ensures OldIndices(oldWork + [wi]) == OldIndices(oldWork) + {wi.curIndex}
  {
    forall k | 0 <= k < |oldWork| ensures oldWork[k].curIndex in OldIndices(oldWork) {
      assert oldWork[k] in oldWork;
    }
    assert forall w :: w in oldWork + [wi] <==> w in oldWork || w == wi;
  }

  /** What is stored under an index stays: a second part with it is not taken. */
  lemma {:induction false} InsertedTwice(parts: seq<Part>, p: Part, j: nat)
    requires Sorted(parts) && j < |parts| && parts[j].index == p.index
    ensures InsertPart(parts, p) == parts
    decreases j
  {
    if j > 0 {
      var rest := parts[1..];
      assert parts[0].index < p.index && parts == [parts[0]] + rest;
      SortedTail(parts);
      InsertedTwice(rest, p, j - 1);
    }
  }

  lemma SortedTail(parts: seq<Part>)
    requires Sorted(parts) && parts != []
    ensures Sorted(parts[1..])
  {
  }

  lemma {:induction false} InsertedMembers(parts: seq<Part>, p: Part, q: Part)
    requires p.index !in PartIndices(parts)
    ensures q in InsertPart(parts, p) <==> q in parts || q == p
    decreases |parts|
  {
    if parts != [] {
      var head, rest := parts[0], parts[1..];
      assert parts == [head] + rest && head in parts;
      assert PartIndices(rest) <= PartIndices(parts);
      InsertedMembers(rest, p, q);
    }
  }

  lemma {:induction false} InsertedSorted(parts: seq<Part>, p: Part)
    requires Sorted(parts) && p.index !in PartIndices(parts)
    ensures Sorted(InsertPart(parts, p))
    decreases |parts|
  {
    if parts != [] {
      var head, rest := parts[0], parts[1..];
      assert parts == [head] + rest && head in parts;
      assert PartIndices(rest) <= PartIndices(parts);
      if p.index > head.index {
        var r := InsertPart(rest, p);
        InsertedSorted(rest, p);
        forall i | 0 <= i < |r| ensures head.index < r[i].index {
          InsertedMembers(rest, p, r[i]);
          assert r[i] in r;
        }
      }
    }
  }

  lemma PartInserted(parts: seq<Part>, p: Part)
    requires Sorted(parts) && p.index !in PartIndices(parts)
    ensures Sorted(InsertPart(parts, p))
    ensures PartIndices(InsertPart(parts, p)) == PartIndices(parts) + {p.index}
    ensures forall q :: q in InsertPart(parts, p) <==> q in parts || q == p
  {
    InsertedSorted(parts, p);
    var r := InsertPart(parts, p);
    forall q ensures q in r <==> q in parts || q == p {
      InsertedMembers(parts, p, q);
    }
    assert p in r;
    forall i | i in PartIndices(parts) ensures i in PartIndices(r) {
      var q :| q in parts && q.index == i;
      assert q in r;
    }
  }

  lemma StepWork(s: State, e: Event)
    requires Enabled(s, e) && Inv(s)
    ensures WorkInv(Step(s, e))
  {
    match e
    case Ready(_) =>
    case GiveNew(sent) =>
      PoppedClients(s);
      GiveNewWork(s, sent);
    case GiveOld(sent, pos) =>
      PoppedClients(s);
      GiveOldWork(s, sent, pos);
    case Complete(c, data, _) =>
      if c in s.work {
        CompleteWork(s, c, data);
      }
    case Disconnect(c) =>
      if c in s.work {
        WorkTaken(s.work, c);
        PlacesFromWork(WorkIndices(s.work), OldIndices(s.oldWork), PartIndices(s.parts), s.dropped,
                       |s.source.chunks|, s.work[c].curIndex);
        OldPushed(s.oldWork, s.work[c]);
      }
    case Finish =>
  }

  lemma GiveNewWork(s: State, sent: bool)
    requires Enabled(s, GiveNew(sent)) && Inv(s)
    requires Popped(s).1 !in s.work
    ensures WorkInv(Step(s, GiveNew(sent)))
  {
    if ReadSize(s.source) > 0 {
      var c, wi := Popped(s).1, Issued(s.source).1;
      PlacesIssue(WorkIndices(s.work), OldIndices(s.oldWork), PartIndices(s.parts), s.dropped, |s.source.chunks|);
      WorkPut(s.work, c, wi);
      assert s.work - {c} == s.work;
    }
  }

  lemma GiveOldWork(s: State, sent: bool, pos: nat)
    requires Enabled(s, GiveOld(sent, pos)) && Inv(s)
    requires Popped(s).1 !in s.work
    ensures WorkInv(Step(s, GiveOld(sent, pos)))
  {
    var c, wi := Popped(s).1, s.oldWork[0];
    OldPopped(s.oldWork);
    PlacesFromOld(WorkIndices(s.work), OldIndices(s.oldWork), PartIndices(s.parts), s.dropped,
                  |s.source.chunks|, wi.curIndex);
    WorkPut(s.work, c, wi);
    assert s.work - {c} == s.work;
  }

  /** The index a client returns has not been stored before, so its output
      does take its place. */
  lemma CompleteWork(s: State, c: Client, data: seq<Byte>)
    requires Inv(s) && c in s.work
    ensures var p := Part(s.work[c].curIndex, data);
            && p.index !in PartIndices(s.parts)
            && WorkInv(s.(work := s.work - {c}, parts := InsertPart(s.parts, p)))
  {
    WorkTaken(s.work, c);
    PlacesFromWork(WorkIndices(s.work), OldIndices(s.oldWork), PartIndices(s.parts), s.dropped,
                   |s.source.chunks|, s.work[c].curIndex);
    PartInserted(s.parts, Part(s.work[c].curIndex, data));
  }

  lemma StepInv(s: State, e: Event)
    requires Enabled(s, e) && Inv(s)
    ensures Inv(Step(s, e))
  {
    StepClients(s, e);
    StepWork(s, e);
  }

  /** An index is dropped exactly by a failed first send or a successful
      re-send; stored and dropped are final. */
  lemma StepFate(s: State, e: Event)
    requires Enabled(s, e) && Inv(s)
    ensures Step(s, e).dropped
         == s.dropped + (if e == GiveNew(false) && ReadSize(s.source) > 0 then {|s.source.chunks|}
                         else if e.GiveOld? && e.sent then {s.oldWork[0].curIndex} else {})
    ensures PartIndices(Step(s, e).parts)
         == PartIndices(s.parts) + (if e.Complete? && e.client in s.work then {s.work[e.client].curIndex} else {})
    ensures e.Complete? && e.client in s.work ==> s.work[e.client].curIndex !in PartIndices(s.parts)
    ensures forall p :: p in s.parts ==> p in Step(s, e).parts
    ensures s.source.chunks <= Step(s, e).source.chunks
  {
    if e.Complete? && e.client in s.work {
      CompleteWork(s, e.client, e.data);
      PartInserted(s.parts, Part(s.work[e.client].curIndex, e.data));
    }
  }

  // ------------------------------------------------------------- runs

  /** `trace` is the sequence of states that `events` lead through. */
  ghost predicate IsRun(trace: seq<State>, events: seq<Event>) {
    && |trace| == |events| + 1
    && forall i :: 0 <= i < |events| ==>
         && trace[i].source.pos <= |trace[i].source.file|
         && Enabled(trace[i], events[i]) && trace[i + 1] == Step(trace[i], events[i])
  }

  lemma InitialInv(file: seq<Byte>, desired: nat)
    ensures Inv(Initial(file, desired))
  {
  }

  /** In every run: the invariant holds at every point. */
  lemma {:induction false} RunInv(trace: seq<State>, events: seq<Event>, file: seq<Byte>, desired: nat, i: nat)
    requires IsRun(trace, events) && trace[0] == Initial(file, desired) && i < |trace|
    ensures Inv(trace[i])
  {
    InitialInv(file, desired);
    if i > 0 {
      RunInv(trace, events, file, desired, i - 1);
      StepInv(trace[i - 1], events[i - 1]);
    }
  }

  /** In every run: whatever is stored or dropped stays so. */
  lemma {:induction false} RunFate(trace: seq<State>, events: seq<Event>, file: seq<Byte>, desired: nat, i: nat, j: nat)
    requires IsRun(trace, events) && trace[0] == Initial(file, desired) && i <= j < |trace|
    ensures trace[i].dropped <= trace[j].dropped
    ensures forall p :: p in trace[i].parts ==> p in trace[j].parts
    decreases j
  {
    hide Step, Inv, Enabled;
    if i < j {
      RunFate(trace, events, file, desired, i, j - 1);
      RunInv(trace, events, file, desired, j - 1);
      StepFate(trace[j - 1], events[j - 1]);
    }
  }

  /** A failed send of new work, or a successful send of old work. */
  predicate Drops(s: State, e: Event) {
    (e == GiveNew(false) && ReadSize(s.source) > 0) || (e.GiveOld? && e.sent)
  }

  lemma {:induction false} DroppedBySteps(trace: seq<State>, events: seq<Event>, file: seq<Byte>, desired: nat, i: nat)
    requires IsRun(trace, events) && trace[0] == Initial(file, desired) && i < |trace|
    ensures trace[i].dropped == {} <==> forall k :: 0 <= k < i ==> !Drops(trace[k], events[k])
  {
    hide Step, Inv, Enabled;
    if i > 0 {
      DroppedBySteps(trace, events, file, desired, i - 1);
      RunInv(trace, events, file, desired, i - 1);
      StepFate(trace[i - 1], events[i - 1]);
    }
  }

  lemma StoredOrDropped(s: State)
    requires Inv(s) && s.work == map[] && s.oldWork == []
    ensures PartIndices(s.parts) == Below(|s.source.chunks|) <==> s.dropped == {}
  {
    assert WorkIndices(s.work) == {} && OldIndices(s.oldWork) == {};
  }

  /** In every run that ends with nothing under way: every chunk handed out has
      its result stored if and only if no step of the run dropped any. */
  lemma {:induction false} CompleteUnlessDropped(trace: seq<State>, events: seq<Event>, file: seq<Byte>, desired: nat)
    requires IsRun(trace, events) && trace[0] == Initial(file, desired)
    requires trace[|events|].work == map[] && trace[|events|].oldWork == []
    ensures PartIndices(trace[|events|].parts) == Below(|trace[|events|].source.chunks|)
       <==> forall k :: 0 <= k < |events| ==> !Drops(trace[k], events[k])
  {
    RunInv(trace, events, file, desired, |events|);
    StoredOrDropped(trace[|events|]);
    DroppedBySteps(trace, events, file, desired, |events|);
  }

  /** The states of a run in which the re-sent work is lost. */
  function LostAt(b: Byte, i: nat): State {
    var issued := Source([b], 1, 1, 1, [[b]]);
    match i
    case 0 => Initial([b], 1)
    case 1 => State([], [0], map[], [], [], Loaded([b], 1), 0, 0, None, {0}, {})
    case 2 => State([], [], map[0 := WorkInfo(1, 1, 0)], [], [], issued, 0, 0, None, {0}, {})
    case 3 => State([], [], map[], [WorkInfo(1, 1, 0)], [], issued, 0, 0, None, {0}, {})
    case 4 => State([], [1], map[], [WorkInfo(1, 1, 0)], [], issued, 0, 0, None, {0, 1}, {})
    case _ => State([], [], map[], [], [], issued, 0, 0, None, {0, 1}, {0})
  }

  /** The only chunk goes to a client that leaves, and is sent on to another. */
  function LostBy(result: seq<Byte>, i: nat): Event {
    match i
    case 0 => Ready(0)
    case 1 => GiveNew(true)
    case 2 => Disconnect(0)
    case 3 => Ready(1)
    case 4 => GiveOld(true, 1)
    case _ => Complete(1, result, NORMAL)
  }

  lemma LostGiven(b: Byte)
    ensures Issued(Loaded([b], 1)) == (Source([b], 1, 1, 1, [[b]]), WorkInfo(1, 1, 0))
  {
    var d := Loaded([b], 1);
    assert ReadSize(d) == 1;
    assert d.file[d.pos..d.pos + 1] == [b];
    assert d.chunks + [[b]] == [[b]];
  }

  lemma LostStep(b: Byte, result: seq<Byte>, i: nat)
    requires i < 6
    ensures var s, e := LostAt(b, i), LostBy(result, i);
            s.source.pos <= |s.source.file| && Enabled(s, e) && Step(s, e) == LostAt(b, i + 1)
  {
    LostGiven(b);
    if i == 2 || i == 4 {
      assert map[0 := WorkInfo(1, 1, 0)] - {0} == map[];
    }
  }

  /** The other case happens: a client takes the only chunk and leaves, the
      chunk is sent to another one without fail, that one returns its result,
      and nothing is stored. */
  lemma ResentWorkIsLost(b: Byte, result: seq<Byte>)
    returns (trace: seq<State>, events: seq<Event>)
    ensures IsRun(trace, events) && trace[0] == Initial([b], 1)
    ensures LostBy(result, 4) in events && LostBy(result, 4).sent && events[|events| - 1] == Complete(1, result, NORMAL)
    ensures var s := trace[|trace| - 1];
            s.parts == [] && s.dropped == {0} && s.work == map[] && s.oldWork == [] && s.source.chunks == [[b]]
  {
    events := seq(6, i requires 0 <= i => LostBy(result, i));
    trace := seq(7, i requires 0 <= i => LostAt(b, i));
    forall i | 0 <= i < 6
      ensures var s := trace[i];
              s.source.pos <= |s.source.file| && Enabled(s, events[i]) && trace[i + 1] == Step(s, events[i])
    {
      LostStep(b, result, i);
    }
    assert events[4] == LostBy(result, 4);
  }

  // ------------------------------------------------------------- what a piece of work says

  /** The work names a chunk that was handed out, its size, and the end of it
      among all that were handed out. */
  ghost predicate Exact(w: WorkInfo, chunks: seq<seq<Byte>>) {
    && w.curIndex < |chunks|
    && w.size == |chunks[w.curIndex]|
    && w.cursor == |Concat(chunks[..w.curIndex + 1])|
  }

  lemma {:induction false} ConcatSnoc(chunks: seq<seq<Byte>>, c: seq<Byte>)
    ensures Concat(chunks + [c]) == Concat(chunks) + c
  {
    assert (chunks + [c])[..|chunks|] == chunks;
  }

  /** Every recorded or old piece of work is exact; no chunk is empty or longer
      than the chunk size, which is the desired one unless the file is shorter. */
  ghost predicate SourceInv(s: State, file: seq<Byte>, desired: nat) {
    && s.source.file == file && s.source.chunkSize == Min(desired, |file|) && s.source.pos <= |file|
    && s.source.cursorPos == |Concat(s.source.chunks)|
    && (forall i :: 0 <= i < |s.source.chunks| ==> 0 < |s.source.chunks[i]| <= Min(desired, |file|))
    && (forall c :: c in s.work ==> Exact(s.work[c], s.source.chunks))
    && (forall i :: 0 <= i < |s.oldWork| ==> Exact(s.oldWork[i], s.source.chunks))
  }

  lemma ExactLater(w: WorkInfo, chunks: seq<seq<Byte>>, c: seq<Byte>)
    requires Exact(w, chunks)
    ensures Exact(w, chunks + [c])
  {
    assert (chunks + [c])[..w.curIndex + 1] == chunks[..w.curIndex + 1];
  }

  /** The work that goes with a new chunk. */
  lemma IssuedExact(d: Source)
    requires d.pos <= |d.file| && ReadSize(d) > 0 && d.cursorPos == |Concat(d.chunks)|
    ensures var (e, wi) := Issued(d);
            && Exact(wi, e.chunks) && wi.curIndex == |d.chunks|
            && e.file == d.file && e.chunkSize == d.chunkSize && e.pos <= |e.file|
            && e.cursorPos == |Concat(e.chunks)|
            && e.chunks == d.chunks + [d.file[d.pos..d.pos + ReadSize(d)]]
  {
    var c := d.file[d.pos..d.pos + ReadSize(d)];
    ConcatSnoc(d.chunks, c);
    assert (d.chunks + [c])[..|d.chunks| + 1] == d.chunks + [c];
  }

  lemma GiveNewSource(s: State, sent: bool, file: seq<Byte>, desired: nat)
    requires Enabled(s, GiveNew(sent)) && SourceInv(s, file, desired)
    ensures SourceInv(Step(s, GiveNew(sent)), file, desired)
  {
    var d := s.source;
    if ReadSize(d) > 0 {
      IssuedExact(d);
      var c := d.file[d.pos..d.pos + ReadSize(d)];
      hide Exact, Concat, Issued;
      forall k | k in s.work ensures Exact(s.work[k], d.chunks + [c]) {
        ExactLater(s.work[k], d.chunks, c);
      }
      forall i | 0 <= i < |s.oldWork| ensures Exact(s.oldWork[i], d.chunks + [c]) {
        ExactLater(s.oldWork[i], d.chunks, c);
      }
    }
  }

  lemma StepSource(s: State, e: Event, file: seq<Byte>, desired: nat)
    requires s.source.pos <= |s.source.file| && Enabled(s, e) && SourceInv(s, file, desired)
    ensures SourceInv(Step(s, e), file, desired)
  {
    hide Exact, Concat;
    if e.GiveNew? {
      GiveNewSource(s, e.sent, file, desired);
    }
  }

  /** In every run: what is recorded of each piece of work, new or old, is what
      its chunk is. */
  lemma {:induction false} RunSource(trace: seq<State>, events: seq<Event>, file: seq<Byte>, desired: nat, i: nat)
    requires IsRun(trace, events) && trace[0] == Initial(file, desired) && i < |trace|
    ensures SourceInv(trace[i], file, desired)
  {
    hide Step, Enabled;
    if i > 0 {
      RunSource(trace, events, file, desired, i - 1);
      StepSource(trace[i - 1], events[i - 1], file, desired);
    }
  }

  // ------------------------------------------------------------- who is served when

  /** `a` is served before `b`. */
  ghost predicate Before(q: seq<Client>, a: Client, b: Client) {
    exists i, j :: 0 <= i < j < |q| && q[i] == a && q[j] == b
  }

  /** A client hands in a result, or announces itself: whom it comes before and
      whom after. One that is too slow is not queued at all. */
  lemma Arrival(s: State, e: Event)
    requires Enabled(s, e) && Inv(s)
    ensures e.Ready? ==>
              e.client in Queue(Step(s, e)) && forall d :: d in Queue(s) ==> Before(Queue(Step(s, e)), d, e.client)
    ensures e.Complete? && e.client in s.work && e.status == NORMAL ==>
              e.client in Queue(Step(s, e)) && forall d :: d in Queue(s) ==> Before(Queue(Step(s, e)), d, e.client)
    ensures e.Complete? && e.client in s.work && e.status == FAST ==>
              && e.client in Queue(Step(s, e))
              && (forall d :: d in s.fast ==> Before(Queue(Step(s, e)), d, e.client))
              && (forall d :: d in s.other ==> Before(Queue(Step(s, e)), e.client, d))
    ensures e.Complete? && e.client in s.work && e.status == TOOSLOW ==> Queue(Step(s, e)) == Queue(s)
  {
    if e.Ready? || (e.Complete? && e.client in s.work && e.status == NORMAL) {
      var q := Queue(Step(s, e));
      assert q == Queue(s) + [e.client];
      LastInLine(Queue(s), e.client);
    } else if e.Complete? && e.client in s.work && e.status == FAST {
      assert Step(s, e).fast == s.fast + [e.client] && Step(s, e).other == s.other;
      BetweenLines(s.fast, e.client, s.other);
    }
  }

  lemma LastInLine(q: seq<Client>, c: Client)
    ensures c in q + [c] && forall d :: d in q ==> Before(q + [c], d, c)
  {
    assert (q + [c])[|q|] == c;
    forall d | d in q ensures Before(q + [c], d, c) {
      var i :| 0 <= i < |q| && q[i] == d;
      assert (q + [c])[i] == d;
    }
  }

  lemma BetweenLines(fast: seq<Client>, c: Client, other: seq<Client>)
    ensures var q := fast + [c] + other;
            && c in q && (forall d :: d in fast ==> Before(q, d, c)) && (forall d :: d in other ==> Before(q, c, d))
  {
    var q := fast + [c] + other;
    assert q[|fast|] == c;
    forall d | d in fast ensures Before(q, d, c) {
      var i :| 0 <= i < |fast| && fast[i] == d;
      assert q[i] == d;
    }
    forall d | d in other ensures Before(q, c, d) {
      var i :| 0 <= i < |other| && other[i] == d;
      assert q[|fast| + 1 + i] == d;
    }
  }

  /** A round serves the first client in line: new work is the next chunk, old
      work the oldest. */
  lemma FirstServed(s: State, e: Event)
    requires Enabled(s, e) && Inv(s) && (e.GiveNew? || e.GiveOld?)
    ensures Queue(Step(s, e)) == Queue(s)[1..]
    ensures var c, t := Queue(s)[0], Step(s, e);
            && (e == GiveNew(true) && ReadSize(s.source) > 0 ==>
                  t.work.Keys == s.work.Keys + {c} && t.work[c].curIndex == |s.source.chunks|)
            && (e.GiveOld? && !e.sent ==> t.work == s.work[c := s.oldWork[0]] && t.oldWork == s.oldWork[1..])
            && (e.GiveOld? && e.sent ==> t.work == s.work && t.oldWork == s.oldWork[1..])
  {
    PoppedQueue(s);
    PoppedClients(s);
    assert Queue(s)[1..] == Queue(Popped(s).0);
  }

  lemma InsertKeeps(front: seq<Client>, c: Client, back: seq<Client>, a: Client, b: Client)
    requires Before(front + back, a, b)
    ensures Before(front + [c] + back, a, b)
  {
    var q, w := front + back, front + [c] + back;
    var i, j :| 0 <= i < j < |q| && q[i] == a && q[j] == b;
    var k, l := if i < |front| then i else i + 1, if j < |front| then j else j + 1;
    assert w[k] == a && w[l] == b;
  }

  lemma StepKeepsOrder(s: State, e: Event, a: Client, b: Client)
    requires Enabled(s, e) && Inv(s) && Before(Queue(s), a, b) && a in Queue(Step(s, e))
    ensures Before(Queue(Step(s, e)), a, b)
  {
    if e.GiveNew? || e.GiveOld? {
      FirstServed(s, e);
      var q := Queue(s);
      var i, j :| 0 <= i < j < |q| && q[i] == a && q[j] == b;
      if i > 0 {
        assert q[1..][i - 1] == a && q[1..][j - 1] == b;
      } else {
        NotAgain(q);
        assert false;
      }
    } else if e.Ready? || (e.Complete? && e.client in s.work && e.status != TOOSLOW) {
      var t := Step(s, e);
      if t.other == s.other {
        InsertKeeps(s.fast, e.client, s.other, a, b);
      } else {
        assert Queue(s) + [] == Queue(s);
        InsertKeeps(Queue(s), e.client, [], a, b);
        assert Queue(t) == Queue(s) + [e.client] + [];
      }
    } else {
      assert Queue(Step(s, e)) == Queue(s);
    }
  }

  lemma NotAgain(q: seq<Client>)
    requires q != [] && Distinct(q)
    ensures q[0] !in q[1..]
  {
  }

  /** In every run: of two clients in line, the first stays first until it is
      served. */
  lemma {:induction false} ServedInOrder(trace: seq<State>, events: seq<Event>, file: seq<Byte>, desired: nat,
                                         i: nat, j: nat, a: Client, b: Client)
    requires IsRun(trace, events) && trace[0] == Initial(file, desired) && i <= j < |trace|
    requires Before(Queue(trace[i]), a, b) && forall k :: i <= k <= j ==> a in Queue(trace[k])
    ensures Before(Queue(trace[j]), a, b)
    decreases j
  {
    hide Step, Inv, Enabled, Before;
    if i < j {
      ServedInOrder(trace, events, file, desired, i, j - 1, a, b);
      RunInv(trace, events, file, desired, j - 1);
      assert trace[j - 1 + 1] == Step(trace[j - 1], events[j - 1]) && a in Queue(trace[j]);
      StepKeepsOrder(trace[j - 1], events[j - 1], a, b);
    }
  }

  /** In every run: a client found fast is served before every client that was
      in the other line when it handed in its result. */
  lemma {:induction false} FastServedFirst(trace: seq<State>, events: seq<Event>, file: seq<Byte>, desired: nat,
                                           i: nat, j: nat, d: Client)
    requires IsRun(trace, events) && trace[0] == Initial(file, desired) && i < j < |trace|
    requires events[i].Complete? && events[i].status == FAST && events[i].client in trace[i].work
    requires d in trace[i].other && forall k :: i < k <= j ==> events[i].client in Queue(trace[k])
    ensures d in Queue(trace[j]) && Before(Queue(trace[j]), events[i].client, d)
  {
    hide Step, Inv, Enabled;
    RunInv(trace, events, file, desired, i);
    Arrival(trace[i], events[i]);
    assert trace[i + 1] == Step(trace[i], events[i]);
    ServedInOrder(trace, events, file, desired, i + 1, j, events[i].client, d);
  }

  // ------------------------------------------------------------- runs without mishap

  /** No send fails, no client leaves with work in hand, and every client
      returns what the algorithm makes of its chunk. */
  ghost predicate Smooth(s: State, e: Event, f: seq<Byte> -> seq<Byte>) {
    match e
    case GiveNew(sent) => sent
    case GiveOld(sent, _) => sent
    case Complete(c, data, _) =>
      c in s.work && s.work[c].curIndex < |s.source.chunks| ==>
        data == f(s.source.chunks[s.work[c].curIndex])
    case Disconnect(c) => c !in s.work
    case Ready(_) => true
    case Finish => true
  }

  function Applied(f: seq<Byte> -> seq<Byte>, chunks: seq<seq<Byte>>): (r: seq<seq<Byte>>)
    ensures |r| == |chunks| && forall i :: 0 <= i < |chunks| ==> r[i] == f(chunks[i])
  {
    if chunks == [] then [] else Applied(f, chunks[..|chunks| - 1]) + [f(chunks[|chunks| - 1])]
  }

  /** Every chunk but the last has the chunk size, and so has the last unless it
      ends the file. */
  ghost predicate Filled(d: Source) {
    forall i :: 0 <= i < |d.chunks| ==>
      |d.chunks[i]| == d.chunkSize || (i == |d.chunks| - 1 && d.pos == |d.file|)
  }

  /** What holds throughout a run without mishap. */
  ghost predicate SmoothInv(s: State, file: seq<Byte>, desired: nat, f: seq<Byte> -> seq<Byte>) {
    && Inv(s) && s.oldWork == [] && s.dropped == {}
    && s.source.file == file && s.source.chunkSize == Loaded(file, desired).chunkSize
    && Concat(s.source.chunks) == file[..s.source.pos]
    && Filled(s.source)
    && (forall p :: p in s.parts ==> p.index < |s.source.chunks| && p.data == f(s.source.chunks[p.index]))
    && (s.waiting > 0 || s.output.Some? ==> s.source.pos == |file|)
    && (s.finished == 0 <==> s.output.None?)
    && (s.output.Some? ==> s.work == map[] && s.output.value == Concat(Applied(f, s.source.chunks)))
  }

  /** When nothing is under way and nothing is dropped, every index is stored. */
  lemma AllStored(s: State)
    requires Inv(s) && s.oldWork == [] && s.dropped == {} && s.work == map[]
    ensures PartIndices(s.parts) == Below(|s.source.chunks|)
  {
    assert WorkIndices(s.work) == {} && OldIndices(s.oldWork) == {};
    assert {} + {} + PartIndices(s.parts) + {} == PartIndices(s.parts);
  }

  /** In a sorted set of parts the indices grow at least as fast as the positions. */
  lemma {:induction false} IndexAtLeast(parts: seq<Part>, k: nat)
    requires Sorted(parts) && k < |parts|
    ensures parts[k].index >= k
  {
    if k > 0 {
      IndexAtLeast(parts, k - 1);
      assert parts[k - 1].index < parts[k].index;
    }
  }

  lemma PartAt(parts: seq<Part>, i: nat) returns (j: nat)
    requires i in PartIndices(parts)
    ensures j < |parts| && parts[j].index == i
  {
    var q :| q in parts && q.index == i;
    j :| 0 <= j < |parts| && parts[j] == q;
  }

  /** A sorted set of parts with exactly the indices below `n` has each part at
      its own index. */
  lemma {:induction false} PartInPlace(parts: seq<Part>, n: nat, k: nat)
    requires Sorted(parts) && k < |parts| && PartIndices(parts) == Below(n)
    ensures parts[k].index == k
  {
    IndexAtLeast(parts, k);
    assert parts[k] in parts && parts[k].index in PartIndices(parts);
    assert k in Below(n);
    var j := PartAt(parts, k);
    IndexAtLeast(parts, j);
    if j < k {
      PartInPlace(parts, n, j);
    }
  }

  lemma PartsInPlace(parts: seq<Part>, n: nat)
    requires Sorted(parts) && PartIndices(parts) == Below(n)
    ensures |parts| == n && forall i :: 0 <= i < n ==> parts[i].index == i
  {
    forall i | 0 <= i < |parts| ensures parts[i].index == i {
      PartInPlace(parts, n, i);
    }
    if parts != [] {
      assert parts[|parts| - 1] in parts && parts[|parts| - 1].index in PartIndices(parts);
    }
    if n > 0 {
      var j := PartAt(parts, n - 1);
    }
  }

  lemma {:induction false} FlattenApplied(parts: seq<Part>, f: seq<Byte> -> seq<Byte>, chunks: seq<seq<Byte>>)
    requires |parts| == |chunks|
    requires forall i :: 0 <= i < |parts| ==> parts[i].data == f(chunks[i])
    ensures Flatten(parts) == Concat(Applied(f, chunks))
    decreases |parts|
  {
    if parts != [] {
      var k := |parts| - 1;
      FlattenApplied(parts[..k], f, chunks[..k]);
      ConcatSnoc(Applied(f, chunks[..k]), f(chunks[k]));
    }
  }

  /** Reordering puts the outputs in file order. */
  lemma ReorderedInOrder(s: State, file: seq<Byte>, desired: nat, f: seq<Byte> -> seq<Byte>)
    requires SmoothInv(s, file, desired, f) && s.work == map[]
    ensures Flatten(s.parts) == Concat(Applied(f, s.source.chunks))
  {
    AllStored(s);
    PartsInPlace(s.parts, |s.source.chunks|);
    forall i | 0 <= i < |s.parts| ensures s.parts[i].data == f(s.source.chunks[i]) {
      assert s.parts[i] in s.parts;
    }
    FlattenApplied(s.parts, f, s.source.chunks);
  }

  lemma SmoothStep(s: State, e: Event, file: seq<Byte>, desired: nat, f: seq<Byte> -> seq<Byte>)
    requires desired >= 1
    requires SmoothInv(s, file, desired, f) && Enabled(s, e) && Smooth(s, e, f)
    ensures SmoothInv(Step(s, e), file, desired, f)
  {
    StepInv(s, e);
    match e
    case Ready(_) =>
    case GiveNew(_) => SmoothGive(s, file, desired, f);
    case GiveOld(_, _) => assert false;
    case Complete(c, data, status) => SmoothComplete(s, c, data, status, file, desired, f);
    case Disconnect(_) =>
    case Finish => ReorderedInOrder(s, file, desired, f);
  }

  lemma SmoothComplete(s: State, c: Client, data: seq<Byte>, status: Status,
                       file: seq<Byte>, desired: nat, f: seq<Byte> -> seq<Byte>)
    requires SmoothInv(s, file, desired, f) && Smooth(s, Complete(c, data, status), f)
    requires Inv(Step(s, Complete(c, data, status)))
    ensures SmoothInv(Step(s, Complete(c, data, status)), file, desired, f)
  {
    if c in s.work {
      assert s.work[c].curIndex in WorkIndices(s.work);
      assert s.work[c].curIndex in Below(|s.source.chunks|);
      CompleteWork(s, c, data);
      PartInserted(s.parts, Part(s.work[c].curIndex, data));
    }
  }

  lemma FilledMore(d: Source)
    requires d.pos <= |d.file| && Filled(d) && ReadSize(d) > 0
    ensures Filled(Issued(d).0)
  {
  }

  lemma PoppedKeeps(s: State)
    requires Queue(s) != []
    ensures Popped(s).0 == s.(fast := Popped(s).0.fast, other := Popped(s).0.other)
  {
  }

  lemma SmoothGive(s: State, file: seq<Byte>, desired: nat, f: seq<Byte> -> seq<Byte>)
    requires desired >= 1 && SmoothInv(s, file, desired, f) && Enabled(s, GiveNew(true))
    requires Inv(Step(s, GiveNew(true)))
    ensures SmoothInv(Step(s, GiveNew(true)), file, desired, f)
  {
    assert s.source.pos <= |s.source.file|;
    hide Inv, Popped, Filled, Queue;
    var d := s.source;
    var n := ReadSize(d);
    if n > 0 {
      ConcatSnoc(d.chunks, d.file[d.pos..d.pos + n]);
      assert file[..d.pos] + file[d.pos..d.pos + n] == file[..d.pos + n];
      FilledMore(d);
    }
    PoppedKeeps(s);
  }

  /** In every run without mishap, in whatever order the clients finish: once
      the reordering has run, the chunks are the whole file cut up in order,
      every one of them is stored, and the output is their results in order. */
  lemma {:induction false} SmoothRun(trace: seq<State>, events: seq<Event>, file: seq<Byte>, desired: nat,
                                     f: seq<Byte> -> seq<Byte>, i: nat)
    requires desired >= 1
    requires IsRun(trace, events) && trace[0] == Initial(file, desired) && i < |trace|
    requires forall k :: 0 <= k < |events| ==> Smooth(trace[k], events[k], f)
    ensures SmoothInv(trace[i], file, desired, f)
    ensures var s := trace[i];
            s.output.Some? ==>
              && Concat(s.source.chunks) == file
              && (forall k :: 0 <= k < |s.source.chunks| - 1 ==> |s.source.chunks[k]| == Min(desired, |file|))
              && PartIndices(s.parts) == Below(|s.source.chunks|)
              && s.output.value == Concat(Applied(f, s.source.chunks))
  {
    InitialInv(file, desired);
    if i > 0 {
      SmoothRun(trace, events, file, desired, f, i - 1);
      SmoothStep(trace[i - 1], events[i - 1], file, desired, f);
    }
    var s := trace[i];
    if s.output.Some? {
      AllStored(s);
      assert file[..|file|] == file;
    }
  }

  lemma {:induction false} FinishedOutput(trace: seq<State>, events: seq<Event>, file: seq<Byte>, desired: nat, j: nat)
    requires IsRun(trace, events) && trace[0] == Initial(file, desired) && j < |trace|
    ensures trace[j].finished == 0 <==> trace[j].output.None?
  {
    if j > 0 {
      FinishedOutput(trace, events, file, desired, j - 1);
      OutputStep(trace[j - 1], events[j - 1]);
    }
  }

  lemma OutputStep(s: State, e: Event)
    requires s.source.pos <= |s.source.file| && Enabled(s, e)
    requires s.finished == 0 <==> s.output.None?
    ensures Step(s, e).finished == 0 <==> Step(s, e).output.None?
    ensures s.output.Some? ==> Step(s, e).output == s.output
  {
  }

  /** The reordering runs at most once: its output never changes. */
  lemma {:induction false} OutputOnce(trace: seq<State>, events: seq<Event>, file: seq<Byte>, desired: nat,
                                      i: nat, j: nat)
    requires IsRun(trace, events) && trace[0] == Initial(file, desired) && i <= j < |trace|
    ensures trace[i].output.Some? ==> trace[j].output == trace[i].output
    decreases j
  {
    if i < j {
      OutputOnce(trace, events, file, desired, i, j - 1);
      FinishedOutput(trace, events, file, desired, j - 1);
      OutputStep(trace[j - 1], events[j - 1]);
    }
  }
}
