/** The server's parts as the objects they are, and the proof that each handler
    and each round of a worker thread is the step of the same name. */
module Servers {
  import opened Basics
  import opened Scheduler

  // ------------------------------------------------------------- Data.cpp

  class Data {
    var file: seq<Byte>
    /** The cursor of the open file. */
    var pos: nat
    var fileSize: nat
    var chunkSize: nat
    var cursorPos: nat
    var curIndex: nat
    ghost var chunks: seq<seq<Byte>>

    ghost predicate Valid() reads this {
      pos <= |file| && curIndex == |chunks|
    }

    ghost function State(): Source reads this {
      Source(file, chunkSize, pos, cursorPos, chunks)
    }

    constructor ()
      ensures Valid() && curIndex == 0
    {
      file, pos, fileSize, chunkSize, cursorPos, curIndex, chunks := [], 0, 0, 0, 0, 0, [];
    }

    method LoadData(content: seq<Byte>, desiredChunkSize: nat)
      requires Valid() && curIndex == 0
      modifies this
      ensures Valid() && State() == Loaded(content, desiredChunkSize)
      ensures file == content && pos == 0 && cursorPos == 0 && chunkSize == Min(desiredChunkSize, |content|)
    {
      file, pos := content, 0;
      fileSize := |content|;
      if fileSize > desiredChunkSize {
        chunkSize := desiredChunkSize;
      } else {
        chunkSize := fileSize;
      }
      cursorPos := 0;
    }

    /** An empty `WorkInfo` when the buffer is too small or the file at its end. */
    method GetClientWork(buffSize: nat) returns (wi: WorkInfo, chunk: seq<Byte>)
      requires Valid()
      modifies this
      ensures Valid()
      ensures var n := if buffSize < old(chunkSize) then 0 else BytesRead(old(State()), buffSize);
              if n == 0 then
                State() == old(State()) && wi == WorkInfo(0, 0, 0) && chunk == []
              else
                && (State(), wi) == IssuedOf(old(State()), n)
                && State().chunks == old(State().chunks) + [chunk]
      ensures wi.size == |chunk|
      ensures chunk == [] <==> buffSize < old(chunkSize) || buffSize == 0 || old(pos) == |file|
      ensures chunk != [] ==>
                && |chunk| == Min(buffSize, |file| - old(pos)) && chunk == file[old(pos)..pos]
                && pos == old(pos) + |chunk| && cursorPos == old(cursorPos) + |chunk| == wi.cursor
                && wi.curIndex == old(curIndex) && curIndex == old(curIndex) + 1
    {
      if buffSize < chunkSize {
        return WorkInfo(0, 0, 0), [];
      }
      var read := BytesRead(Source(file, chunkSize, pos, cursorPos, []), buffSize);
      if read > 0 {
        chunk := file[pos..pos + read];
        pos := pos + read;
        cursorPos := cursorPos + read;
        wi := WorkInfo(cursorPos, read, curIndex);
        curIndex := curIndex + 1;
        chunks := chunks + [chunk];
        return;
      }
      return WorkInfo(0, 0, 0), [];
    }

    /** The work comes back as it was given. Where the cursor of the file ends
        up depends on `File::MoveCursor`, which is not part of this model. */
    method GetClientWorkPrev(w: WorkInfo, newPos: nat) returns (wi: WorkInfo)
      requires Valid() && newPos <= |file|
      modifies this`pos
      ensures Valid() && wi == w && pos == newPos
    {
      pos := newPos;
      wi := w;
    }
  }

  // ------------------------------------------------------------- ClientWorkMap.cpp

  class ClientWorkMap {
    var workMap: map<Client, WorkInfo>

    constructor ()
      ensures workMap == map[]
    {
      workMap := map[];
    }

    method Change(clint: Client, wi: WorkInfo)
      modifies this
      ensures workMap == old(workMap)[clint := wi]
    {
      workMap := workMap[clint := wi];
    }

    method Remove(clint: Client) returns (removed: bool)
      modifies this
      ensures removed <==> clint in old(workMap)
      ensures workMap == old(workMap) - {clint}
    {
      removed := clint in workMap;
      workMap := workMap - {clint};
    }

    /** Hands the client's work over and forgets it. */
    method GetClientWork(clint: Client) returns (work: Option<WorkInfo>)
      modifies this
      ensures work == if clint in old(workMap) then Some(old(workMap)[clint]) else None
      ensures workMap == old(workMap) - {clint}
    {
      if clint in workMap {
        work := Some(workMap[clint]);
        workMap := workMap - {clint};
      } else {
        assert workMap - {clint} == workMap;
        work := None;
      }
    }

    method Empty() returns (r: bool)
      ensures r <==> workMap == map[]
    {
      r := |workMap| == 0;
    }
  }

  // ------------------------------------------------------------- ClientQueue.cpp

  class ClientQueue {
    var fastClients: seq<Client>
    var otherClients: seq<Client>

    constructor ()
      ensures fastClients == [] && otherClients == []
    {
      fastClients, otherClients := [], [];
    }

    method AddClient(clint: Client)
      modifies this
      ensures fastClients == old(fastClients) && otherClients == old(otherClients) + [clint]
    {
      otherClients := otherClients + [clint];
    }

    /** Queues a client by the verdict on its time; refuses one that is too slow. */
    method EvaluateClient(clint: Client, res: Status) returns (keep: bool)
      modifies this
      ensures keep <==> res != TOOSLOW
      ensures fastClients == old(fastClients) + (if res == FAST then [clint] else [])
      ensures otherClients == old(otherClients) + (if res == NORMAL then [clint] else [])
    {
      if res == TOOSLOW {
        return false;
      }
      if res == FAST {
        fastClients := fastClients + [clint];
      } else {
        otherClients := otherClients + [clint];
      }
      return true;
    }

    /** Fast clients before others, each in the order they came. */
    method FindClientForWork() returns (clint: Option<Client>)
      modifies this
      ensures clint.None? <==> old(fastClients + otherClients) == []
      ensures clint.None? ==> fastClients == old(fastClients) && otherClients == old(otherClients)
      ensures clint.Some? && old(fastClients) != [] ==>
                [clint.value] + fastClients == old(fastClients) && otherClients == old(otherClients)
      ensures clint.Some? && old(fastClients) == [] ==>
                fastClients == [] && [clint.value] + otherClients == old(otherClients)
    {
      if fastClients != [] {
        clint := Some(fastClients[0]);
        fastClients := fastClients[1..];
      } else if otherClients != [] {
        clint := Some(otherClients[0]);
        otherClients := otherClients[1..];
      } else {
        clint := None;
      }
    }
  }

  // ------------------------------------------------------------- FileMappingIndexed.h

  datatype IndexEntry = IndexEntry(index: nat, pos: nat, size: nat)

  /** Insertion into `std::set` under the order by index. */
  function InsertEntry(entries: seq<IndexEntry>, e: IndexEntry): seq<IndexEntry> {
    if entries == [] then [e]
    else if e.index < entries[0].index then [e] + entries
    else if e.index == entries[0].index then entries
    else [entries[0]] + InsertEntry(entries[1..], e)
  }

  ghost predicate InRange(entries: seq<IndexEntry>, bytes: seq<Byte>) {
    forall i :: 0 <= i < |entries| ==> entries[i].pos + entries[i].size <= |bytes|
  }

  /** The pieces that the entries mark out in the file. */
  ghost function PartsOf(entries: seq<IndexEntry>, bytes: seq<Byte>): (r: seq<Part>)
    requires InRange(entries, bytes)
    ensures |r| == |entries|
  {
    if entries == [] then []
    else
      var e := entries[0];
      assert InRange(entries[1..], bytes);
      [Part(e.index, bytes[e.pos..e.pos + e.size])] + PartsOf(entries[1..], bytes)
  }

  lemma {:induction false} PartsAppend(entries: seq<IndexEntry>, bytes: seq<Byte>, data: seq<Byte>)
    requires InRange(entries, bytes)
    ensures InRange(entries, bytes + data)
    ensures PartsOf(entries, bytes + data) == PartsOf(entries, bytes)
    decreases |entries|
  {
    if entries != [] {
      var e := entries[0];
      assert (bytes + data)[e.pos..e.pos + e.size] == bytes[e.pos..e.pos + e.size];
      PartsAppend(entries[1..], bytes, data);
    }
  }

  /** A written piece takes the place of its index among the others. */
  lemma {:induction false} PartsInsert(entries: seq<IndexEntry>, bytes: seq<Byte>, e: IndexEntry)
    requires InRange(entries, bytes) && e.pos + e.size <= |bytes|
    ensures InRange(InsertEntry(entries, e), bytes)
    ensures PartsOf(InsertEntry(entries, e), bytes)
         == InsertPart(PartsOf(entries, bytes), Part(e.index, bytes[e.pos..e.pos + e.size]))
    decreases |entries|
  {
    if entries != [] {
      var parts := PartsOf(entries, bytes);
      assert parts[1..] == PartsOf(entries[1..], bytes);
      if e.index < entries[0].index {
        assert ([e] + entries)[1..] == entries;
      } else if e.index > entries[0].index {
        PartsInsert(entries[1..], bytes, e);
        assert ([entries[0]] + InsertEntry(entries[1..], e))[1..] == InsertEntry(entries[1..], e);
      }
    }
  }

  lemma {:induction false} PartsAt(entries: seq<IndexEntry>, bytes: seq<Byte>, i: nat)
    requires InRange(entries, bytes) && i < |entries|
    ensures var e := entries[i];
            PartsOf(entries, bytes)[i] == Part(e.index, bytes[e.pos..e.pos + e.size])
    decreases |entries|
  {
    if i > 0 {
      PartsAt(entries[1..], bytes, i - 1);
    }
  }

  class FileMappingIndexed {
    var bytes: seq<Byte>
    var indices: seq<IndexEntry>

    ghost predicate Valid() reads this {
      InRange(indices, bytes)
    }

    ghost function Parts(): seq<Part>
      requires Valid()
      reads this
    {
      PartsOf(indices, bytes)
    }

    constructor ()
      ensures Valid() && Parts() == []
    {
      bytes, indices := [], [];
    }

    /** `Write`: the bytes go to the end of the file, the entry to its place. */
    method Write(index: nat, data: seq<Byte>)
      requires Valid()
      modifies this
      ensures Valid() && bytes == old(bytes) + data
      ensures Parts() == InsertPart(old(Parts()), Part(index, data))
    {
      ghost var before := bytes;
      PartsAppend(indices, bytes, data);
      var e := IndexEntry(index, |bytes|, |data|);
      bytes := bytes + data;
      assert bytes[e.pos..e.pos + e.size] == data;
      PartsInsert(indices, bytes, e);
      indices := InsertEntry(indices, e);
    }

    /** `ReorderFileData`: copies the pieces to a new file in the order of their indices. */
    method ReorderFileData() returns (out: seq<Byte>)
      requires Valid()
      ensures out == Flatten(Parts())
    {
      out := [];
      ghost var parts := Parts();
      var i := 0;
      while i < |indices|
        invariant 0 <= i <= |indices|
        invariant out == Flatten(parts[..i])
      {
        PartsAt(indices, bytes, i);
        assert parts[..i + 1][..i] == parts[..i];
        out := out + bytes[indices[i].pos..indices[i].pos + indices[i].size];
        i := i + 1;
      }
      assert parts[..i] == parts;
    }
  }

  // ------------------------------------------------------------- Server.cpp

  class Server {
    const clntQueue: ClientQueue
    const workMap: ClientWorkMap
    const data: Data
    const tempFileMap: FileMappingIndexed
    var oldWork: seq<WorkInfo>
    var reorderCounter: nat
    /** The worker threads that have met the end of the data and wait there. */
    var waiting: nat
    /** The new file, once written. */
    var output: Option<seq<Byte>>
    ghost var readied: set<Client>
    ghost var dropped: set<nat>

    ghost predicate Valid() reads this, data, tempFileMap {
      data.Valid() && tempFileMap.Valid()
    }

    ghost function Model(): State
      requires Valid()
      reads this, clntQueue, workMap, data, tempFileMap
    {
      State(clntQueue.fastClients, clntQueue.otherClients, workMap.workMap, oldWork,
            tempFileMap.Parts(), data.State(), waiting, reorderCounter, output, readied, dropped)
    }

    constructor (content: seq<Byte>, desiredChunkSize: nat)
      ensures Valid() && Model() == Initial(content, desiredChunkSize)
      ensures fresh(clntQueue) && fresh(workMap) && fresh(data) && fresh(tempFileMap)
    {
      clntQueue := new ClientQueue();
      workMap := new ClientWorkMap();
      var d := new Data();
      d.LoadData(content, desiredChunkSize);
      data := d;
      tempFileMap := new FileMappingIndexed();
      oldWork, reorderCounter, waiting, output := [], 0, 0, None;
      readied, dropped := {}, {};
    }

    /** One turn of the inner loop of `WorkThread`. `sent` is whether the send
        succeeds, `newPos` where re-reading old work leaves the file cursor. */
    method Round(sent: bool, newPos: nat) returns (idle: bool)
      requires Valid() && newPos <= |data.file|
      modifies this, clntQueue, workMap, data
      ensures Valid()
      ensures idle <==> Queue(old(Model())) == []
      ensures idle ==> Model() == old(Model())
      ensures !idle && old(oldWork) != [] ==> Model() == old(Step(Model(), GiveOld(sent, newPos)))
      ensures !idle && old(oldWork) == [] ==> Model() == old(Step(Model(), GiveNew(sent)))
    {
      var clint := clntQueue.FindClientForWork();
      if clint.None? {
        return true;
      }
      assert (clntQueue.fastClients, clntQueue.otherClients, clint.value)
          == old(var (t, c) := Popped(Model()); (t.fast, t.other, c));
      if oldWork != [] {
        var wi := oldWork[0];
        oldWork := oldWork[1..];
        GiveOldWork(clint.value, wi, sent, newPos);
      } else {
        var more := GiveNewWork(clint.value, sent);
      }
      return false;
    }

    /** `GiveNewWork`: false when the data is at its end. */
    method GiveNewWork(clint: Client, sent: bool) returns (more: bool)
      requires Valid()
      modifies this`waiting, this`dropped, workMap, data
      ensures Valid() && (more <==> ReadSize(old(data.State())) > 0)
      ensures !more ==>
                && data.State() == old(data.State()) && workMap.workMap == old(workMap.workMap)
                && waiting == old(waiting) + 1 && dropped == old(dropped)
      ensures more ==>
                && data.State() == Issued(old(data.State())).0
                && waiting == old(waiting)
                && var wi := Issued(old(data.State())).1;
                   if sent then
                     workMap.workMap == old(workMap.workMap)[clint := wi] && dropped == old(dropped)
                   else
                     workMap.workMap == old(workMap.workMap) - {clint} && dropped == old(dropped) + {wi.curIndex}
    {
      var wi, chunk := data.GetClientWork(data.chunkSize);
      if wi.size > 0 {
        workMap.Change(clint, wi);
        if !sent {
          var _ := workMap.Remove(clint);
          dropped := dropped + {wi.curIndex};
        }
        return true;
      }
      waiting := waiting + 1;
      return false;
    }

    /** `GiveOldWork`: forgets the work when it is sent again. */
    method GiveOldWork(clint: Client, wi: WorkInfo, sent: bool, newPos: nat)
      requires Valid() && newPos <= |data.file|
      modifies this`dropped, workMap, data
      ensures Valid() && data.State() == old(data.State()).(pos := newPos)
      ensures if sent then
                workMap.workMap == old(workMap.workMap) - {clint} && dropped == old(dropped) + {wi.curIndex}
              else
                workMap.workMap == old(workMap.workMap)[clint := wi] && dropped == old(dropped)
    {
      var w := data.GetClientWorkPrev(wi, newPos);
      workMap.Change(clint, wi);
      if sent {
        var _ := workMap.Remove(clint);
        dropped := dropped + {wi.curIndex};
      }
    }

    /** The end of `GiveNewWork` once nothing is under way any more. */
    method FinishThread()
      requires Valid() && Enabled(Model(), Finish)
      modifies this`waiting, this`reorderCounter, this`output
      ensures Valid() && Model() == old(Step(Model(), Finish))
    {
      waiting := waiting - 1;
      reorderCounter := reorderCounter + 1;
      if reorderCounter == 1 {
        var out := tempFileMap.ReorderFileData();
        output := Some(out);
      }
    }

    /** `MSG_WORK_COMPLETE`; the result says whether the client is disconnected. */
    method OnWorkComplete(clint: Client, result: seq<Byte>, status: Status) returns (kick: bool)
      requires Valid()
      modifies clntQueue, workMap, tempFileMap
      ensures Valid() && Model() == old(Step(Model(), Complete(clint, result, status)))
      ensures clint in old(workMap.workMap) ==>
                && workMap.workMap == old(workMap.workMap) - {clint}
                && clntQueue.fastClients == old(clntQueue.fastClients) + (if status == FAST then [clint] else [])
                && clntQueue.otherClients == old(clntQueue.otherClients) + (if status == NORMAL then [clint] else [])
      ensures kick <==> clint !in old(workMap.workMap) || status == TOOSLOW
    {
      var wi := workMap.GetClientWork(clint);
      if wi.None? {
        return true;
      }
      tempFileMap.Write(wi.value.curIndex, result);
      var keep := clntQueue.EvaluateClient(clint, status);
      return !keep;
    }

    /** `MSG_READY_INIT` and `MSG_READY_PROCESS` */
    method OnReady(clint: Client)
      requires Valid() && Enabled(Model(), Ready(clint))
      modifies this`readied, clntQueue
      ensures Valid() && Model() == old(Step(Model(), Ready(clint)))
      ensures clntQueue.otherClients == old(clntQueue.otherClients) + [clint]
    {
      clntQueue.AddClient(clint);
      readied := readied + {clint};
    }

    /** `DisconnectHandler` */
    method OnDisconnect(clint: Client)
      requires Valid()
      modifies this`oldWork, workMap
      ensures Valid() && Model() == old(Step(Model(), Disconnect(clint)))
      ensures workMap.workMap == old(workMap.workMap) - {clint}
      ensures oldWork == old(oldWork) + (if clint in old(workMap.workMap) then [old(workMap.workMap)[clint]] else [])
    {
      var wi := workMap.GetClientWork(clint);
      if wi.Some? {
        oldWork := oldWork + [wi.value];
      }
    }
  }
}
