/** `FileSend.cpp` and `FileReceive.cpp`: a list of files cut into pieces at
    one end and put together at the other. */
module FileTransfers {
  import opened Basics

  type Date = nat

  /** An entry of the transmitted list. */
  datatype FileInfo = FileInfo(name: string, date: Date, size: nat)

  // ------------------------------------------------------------- sending

  function Slice(content: seq<Byte>, pos: nat, size: nat): (r: seq<Byte>)
    requires pos + size <= |content|
    ensures |r| == size
  {
    seq(size, i requires 0 <= i < size => content[pos + i])
  }

  /** One file, from a position on, in pieces of at most `n` bytes: none at all
      when nothing is left. */
  function Pieces(n: nat, content: seq<Byte>, pos: nat): seq<seq<Byte>>
    requires n >= 1
    decreases |content| - pos
  {
    if pos >= |content| then []
    else
      var size := Min(n, |content| - pos);
      [Slice(content, pos, size)] + Pieces(n, content, pos + size)
  }

  /** All files from the `k`-th on, one after the other. */
  function AllPieces(n: nat, contents: seq<seq<Byte>>, k: nat): seq<seq<Byte>>
    requires n >= 1
    decreases |contents| - k
  {
    if k >= |contents| then [] else Pieces(n, contents[k], 0) + AllPieces(n, contents, k + 1)
  }

  function Flatten(pieces: seq<seq<Byte>>): seq<Byte> {
    if pieces == [] then [] else pieces[0] + Flatten(pieces[1..])
  }

  /** The pieces of one file make up that file; each is as long as allowed, but
      for the last, which is not empty. */
  lemma {:induction false} PiecesWhole(n: nat, content: seq<Byte>, pos: nat)
    requires n >= 1 && pos <= |content|
    ensures var pieces := Pieces(n, content, pos);
            && Flatten(pieces) == content[pos..]
            && (forall i :: 0 <= i < |pieces| ==> 0 < |pieces[i]| <= n)
            && (forall i :: 0 <= i < |pieces| - 1 ==> |pieces[i]| == n)
    decreases |content| - pos
  {
    if pos < |content| {
      var size := Min(n, |content| - pos);
      PiecesWhole(n, content, pos + size);
      OnePiece(content, pos, size, Pieces(n, content, pos + size));
    }
  }

  lemma OnePiece(content: seq<Byte>, pos: nat, size: nat, later: seq<seq<Byte>>)
    requires pos + size <= |content| && Flatten(later) == content[pos + size..]
    ensures Flatten([Slice(content, pos, size)] + later) == content[pos..]
  {
    var pieces := [Slice(content, pos, size)] + later;
    assert pieces[1..] == later;
    assert Slice(content, pos, size) + content[pos + size..] == content[pos..];
  }

  lemma FirstPiece(n: nat, content: seq<Byte>, pos: nat, sent: seq<seq<Byte>>)
    requires n >= 1 && pos < |content|
    ensures var size := Min(n, |content| - pos);
            && sent + Pieces(n, content, pos) == (sent + [Slice(content, pos, size)]) + Pieces(n, content, pos + size)
            && |Pieces(n, content, pos)| == 1 + |Pieces(n, content, pos + size)|
  {
  }

  /** The list gives the sizes of the files. */
  ghost predicate SizesMatch(infos: seq<FileInfo>, contents: seq<seq<Byte>>) {
    |contents| == |infos| && forall i :: 0 <= i < |infos| ==> |contents[i]| == infos[i].size
  }

  ghost predicate IsPrefix<T>(a: seq<T>, b: seq<T>) {
    a <= b
  }

  class FileSend {
    const fileList: seq<FileInfo>
    /** The files as they are on the server's disk, in the order of the list. */
    const contents: seq<seq<Byte>>
    /** How many more times the state will be found to be RUNNING before it
        turns to EXITING for good. */
    var running: nat

    ghost predicate Valid() {
      SizesMatch(fileList, contents)
    }

    constructor (fileList: seq<FileInfo>, contents: seq<seq<Byte>>, running: nat)
      requires SizesMatch(fileList, contents)
      ensures Valid() && this.fileList == fileList && this.contents == contents && this.running == running
    {
      this.fileList, this.contents, this.running := fileList, contents, running;
    }

    method IsRunning() returns (r: bool)
      modifies this`running
      ensures r <==> old(running) > 0
      ensures running == if r then old(running) - 1 else 0
    {
      r := running > 0;
      if r {
        running := running - 1;
      }
    }

    /** The inner loop of `SendFiles`: sends one file as far as the state lets it. */
    method SendFile(i: nat, n: nat) returns (sent: seq<seq<Byte>>)
      requires Valid() && i < |fileList| && n >= 1
      modifies this`running
      ensures IsPrefix(sent, Pieces(n, contents[i], 0))
      ensures old(running) > |Pieces(n, contents[i], 0)| ==>
                sent == Pieces(n, contents[i], 0) && running == old(running) - |sent| - 1
      ensures old(running) <= |Pieces(n, contents[i], 0)| ==> running == 0
    {
      var size, pos := fileList[i].size, 0;
      ghost var all := Pieces(n, contents[i], 0);
      sent := [];
      assert all == sent + all;
      var go := IsRunning();
      while go && size > 0
        invariant size == |contents[i]| - pos && 0 <= pos <= |contents[i]|
        invariant all == sent + Pieces(n, contents[i], pos)
        invariant |all| == |sent| + |Pieces(n, contents[i], pos)|
        invariant go ==> old(running) == running + |sent| + 1
        invariant !go ==> running == 0 && old(running) == |sent|
        decreases size
      {
        var read := Min(n, |contents[i]| - pos);
        FirstPiece(n, contents[i], pos, sent);
        sent := sent + [Slice(contents[i], pos, read)];
        size := size - read;
        pos := pos + read;
        go := IsRunning();
      }
    }

    /** `SendFiles`: sends every piece of every file and succeeds exactly when
        the state stays RUNNING for one test per piece and two per file;
        otherwise what was sent is a beginning of that. */
    method SendFiles(maxBuffSize: nat) returns (ok: bool, sent: seq<seq<Byte>>)
      requires Valid() && maxBuffSize > MSG_OFFSET
      modifies this`running
      ensures var all := AllPieces(maxBuffSize - MSG_OFFSET, contents, 0);
              && (ok <==> old(running) >= |all| + 2 * |fileList|)
              && (ok ==> sent == all)
              && IsPrefix(sent, all)
    {
      var n := maxBuffSize - MSG_OFFSET;
      ghost var all := AllPieces(n, contents, 0);
      sent := [];
      var i := 0;
      assert all == sent + all;
      while i < |fileList|
        invariant 0 <= i <= |fileList| && IsPrefix(sent, all)
        invariant all == sent + AllPieces(n, contents, i)
        invariant old(running) == running + |sent| + 2 * i
      {
        var part := SendFile(i, n);
        NextFile(n, contents, i, sent, part);
        sent := sent + part;
        var go := IsRunning();
        if !go {
          return false, sent;
        }
        i := i + 1;
      }
      return true, sent;
    }
  }

  lemma NextFile(n: nat, contents: seq<seq<Byte>>, i: nat, sent: seq<seq<Byte>>, part: seq<seq<Byte>>)
    requires n >= 1 && i < |contents| && IsPrefix(part, Pieces(n, contents[i], 0))
    ensures var all := sent + AllPieces(n, contents, i);
            && IsPrefix(sent + part, all)
            && |all| == |sent| + |Pieces(n, contents[i], 0)| + |AllPieces(n, contents, i + 1)|
            && (part == Pieces(n, contents[i], 0) ==> all == sent + part + AllPieces(n, contents, i + 1))
  {
  }

  // ------------------------------------------------------------- receiving

  /** A file on the client's disk. The date is that set by the last transfer. */
  datatype DiskFile = DiskFile(content: seq<Byte>, date: Option<Date>)

  type Disk = map<string, DiskFile>

  function Path(dir: string, name: string): string {
    dir + "\\" + name
  }

  /** Opening without truncation: what is there stays there. */
  function Opened(disk: Disk, path: string): Disk {
    if path in disk then disk else disk[path := DiskFile([], None)]
  }

  /** Writing from a position on. */
  function WriteAt(content: seq<Byte>, pos: nat, bytes: seq<Byte>): seq<Byte>
    requires pos <= |content|
  {
    content[..pos] + bytes + (if pos + |bytes| <= |content| then content[pos + |bytes|..] else [])
  }

  /** `old` with `new` written over its beginning. */
  function Overlay(old': seq<Byte>, new': seq<Byte>): seq<Byte> {
    new' + (if |new'| <= |old'| then old'[|new'|..] else [])
  }

  /** A received file is what was sent exactly when there was no longer file of that name before. */
  lemma OverlayExact(old': seq<Byte>, new': seq<Byte>)
    ensures Overlay(old', new') == new' <==> |old'| <= |new'|
  {
  }

  lemma OverlayWrite(old': seq<Byte>, got: seq<Byte>, bytes: seq<Byte>)
    ensures |got| <= |Overlay(old', got)|
    ensures WriteAt(Overlay(old', got), |got|, bytes) == Overlay(old', got + bytes)
  {
    var c := Overlay(old', got);
    assert c[..|got|] == got;
    if |got| + |bytes| <= |old'| {
      assert c[|got| + |bytes|..] == old'[|got| + |bytes|..];
    }
  }

  function OldFile(base: Disk, path: string): DiskFile {
    if path in base then base[path] else DiskFile([], None)
  }

  /** The disk after the first `|got|` files were opened and the given bytes
      of each written; the first `dated` of them have their date set. */
  ghost function Expected(base: Disk, dir: string, infos: seq<FileInfo>, got: seq<seq<Byte>>, dated: nat): Disk
    requires |got| <= |infos|
  {
    if got == [] then base
    else
      var k := |got| - 1;
      var path := Path(dir, infos[k].name);
      var before := OldFile(base, path);
      Expected(base, dir, infos, got[..k], dated)
        [path := DiskFile(Overlay(before.content, got[k]), if k < dated then Some(infos[k].date) else before.date)]
  }

  /** The names in a directory listing. */
  ghost predicate DistinctNames(infos: seq<FileInfo>) {
    forall i, j :: 0 <= i < j < |infos| ==> NameAt(infos, i) != NameAt(infos, j)
  }

  function NameAt(infos: seq<FileInfo>, i: nat): string
    requires i < |infos|
  {
    infos[i].name
  }

  lemma PathInjective(dir: string, a: string, b: string)
    requires Path(dir, a) == Path(dir, b)
    ensures a == b
  {
    var k := |dir| + 1;
    assert Path(dir, a)[k..] == a && Path(dir, b)[k..] == b;
  }

  lemma {:induction false} ExpectedUntouched(base: Disk, dir: string, infos: seq<FileInfo>, got: seq<seq<Byte>>,
                                             dated: nat, path: string)
    requires |got| <= |infos|
    requires forall j :: 0 <= j < |got| ==> path != Path(dir, infos[j].name)
    ensures path in Expected(base, dir, infos, got, dated) <==> path in base
    ensures path in base ==> Expected(base, dir, infos, got, dated)[path] == base[path]
    decreases |got|
  {
    if got != [] {
      ExpectedUntouched(base, dir, infos, got[..|got| - 1], dated, path);
    }
  }

  /** What the finished disk holds for each file. */
  lemma {:induction false} ExpectedAt(base: Disk, dir: string, infos: seq<FileInfo>, got: seq<seq<Byte>>,
                                      dated: nat, j: nat)
    requires j < |got| <= |infos| && DistinctNames(infos)
    ensures var path := Path(dir, infos[j].name);
            var before := OldFile(base, path);
            && path in Expected(base, dir, infos, got, dated)
            && Expected(base, dir, infos, got, dated)[path]
               == DiskFile(Overlay(before.content, got[j]), if j < dated then Some(infos[j].date) else before.date)
    decreases |got|
  {
    var k := |got| - 1;
    if j < k {
      ExpectedAt(base, dir, infos, got[..k], dated, j);
      assert NameAt(infos, j) != NameAt(infos, k);
      if Path(dir, infos[j].name) == Path(dir, infos[k].name) {
        PathInjective(dir, infos[j].name, infos[k].name);
      }
    }
  }

  lemma {:induction false} ExpectedDated(base: Disk, dir: string, infos: seq<FileInfo>, got: seq<seq<Byte>>,
                                         dated: nat, more: nat)
    requires |got| <= |infos| && |got| <= dated && |got| <= more
    ensures Expected(base, dir, infos, got, dated) == Expected(base, dir, infos, got, more)
    decreases |got|
  {
    if got != [] {
      ExpectedDated(base, dir, infos, got[..|got| - 1], dated, more);
    }
  }

  /** Opening the next file. */
  lemma ExpectedOpen(base: Disk, dir: string, infos: seq<FileInfo>, got: seq<seq<Byte>>)
    requires |got| < |infos| && DistinctNames(infos)
    ensures Opened(Expected(base, dir, infos, got, |got|), Path(dir, infos[|got|].name))
         == Expected(base, dir, infos, got + [[]], |got|)
  {
    var path := Path(dir, infos[|got|].name);
    forall j | 0 <= j < |got| ensures path != Path(dir, infos[j].name) {
      assert NameAt(infos, j) != NameAt(infos, |got|);
      if path == Path(dir, infos[j].name) {
        PathInjective(dir, infos[|got|].name, infos[j].name);
      }
    }
    ExpectedUntouched(base, dir, infos, got, |got|, path);
    assert (got + [[]])[..|got|] == got;
    var before := OldFile(base, path);
    assert Overlay(before.content, []) == before.content;
  }

  lemma ExpectedFirst(base: Disk, dir: string, infos: seq<FileInfo>)
    requires infos != [] && DistinctNames(infos)
    ensures Opened(base, Path(dir, infos[0].name)) == Expected(base, dir, infos, [[]], 0)
  {
    var none: seq<seq<Byte>> := [];
    ExpectedOpen(base, dir, infos, none);
    assert none + [[]] == [[]];
  }

  /** Writing to the current file. */
  lemma ExpectedWrite(base: Disk, dir: string, infos: seq<FileInfo>, got: seq<seq<Byte>>, bytes: seq<Byte>)
    requires 0 < |got| <= |infos|
    ensures var k := |got| - 1;
            var path := Path(dir, infos[k].name);
            var disk := Expected(base, dir, infos, got, k);
            && path in disk && |got[k]| <= |disk[path].content|
            && disk[path := disk[path].(content := WriteAt(disk[path].content, |got[k]|, bytes))]
               == Expected(base, dir, infos, got[k := got[k] + bytes], k)
  {
    var k := |got| - 1;
    var path := Path(dir, infos[k].name);
    OverlayWrite(OldFile(base, path).content, got[k], bytes);
    assert got[k := got[k] + bytes][..k] == got[..k];
  }

  /** Setting the date of the current file. */
  lemma ExpectedDate(base: Disk, dir: string, infos: seq<FileInfo>, got: seq<seq<Byte>>)
    requires 0 < |got| <= |infos|
    ensures var k := |got| - 1;
            var path := Path(dir, infos[k].name);
            var disk := Expected(base, dir, infos, got, k);
            && path in disk
            && disk[path := disk[path].(date := Some(infos[k].date))] == Expected(base, dir, infos, got, k + 1)
  {
    var k := |got| - 1;
    ExpectedDated(base, dir, infos, got[..k], k, k + 1);
  }

  // ------------------------------------------------------------- the progress of a transfer

  /** The bytes that belong to each file so far: complete files are closed and
      the next one is begun, until one is not complete or none is left. */
  function Advance(infos: seq<FileInfo>, got: seq<seq<Byte>>): (r: seq<seq<Byte>>)
    requires 0 < |got| <= |infos|
    ensures got <= r && |r| <= |infos|
    decreases |infos| - |got|
  {
    if |got[|got| - 1]| == infos[|got| - 1].size && |got| < |infos| then Advance(infos, got + [[]]) else got
  }

  /** Every byte of every file is there. */
  predicate Complete(infos: seq<FileInfo>, got: seq<seq<Byte>>) {
    |got| == |infos| > 0 && |got[|got| - 1]| == infos[|got| - 1].size
  }

  /** What a piece does to the progress. */
  function Extended(infos: seq<FileInfo>, got: seq<seq<Byte>>, piece: seq<Byte>): seq<seq<Byte>>
    requires 0 < |got| <= |infos|
  {
    Advance(infos, got[|got| - 1 := got[|got| - 1] + piece])
  }

  class FileReceive {
    var fileList: seq<FileInfo>
    var dir: string
    var curFile: nat
    /** The open file and its cursor. */
    var file: string
    var cursor: nat
    var disk: Disk
    var dirs: set<string>
    /** The list as it arrived, the directory and the disk at that moment, and
        what has been received since. */
    ghost var infos: seq<FileInfo>
    ghost var home: string
    ghost var base: Disk
    ghost var got: seq<seq<Byte>>

    constructor (disk: Disk, dirs: set<string>)
      ensures this.disk == disk && this.dirs == dirs
    {
      this.disk, this.dirs := disk, dirs;
      fileList, dir, curFile, file, cursor := [], "", 0, "", 0;
      infos, home, base, got := [], "", disk, [];
    }

    /** The list with the sizes still to come, and the progress so far. */
    ghost predicate Counting() reads this {
      && 0 < |got| <= |infos| && |fileList| == |infos| && DistinctNames(infos)
      && curFile == |got| - 1
      && (forall j :: 0 <= j < |infos| ==> fileList[j].name == infos[j].name && fileList[j].date == infos[j].date)
      && (forall j :: curFile < j < |infos| ==> fileList[j].size == infos[j].size)
      && fileList[curFile].size + |got[curFile]| == infos[curFile].size
      && (forall j :: 0 <= j < curFile ==> |got[j]| == infos[j].size)
    }

    /** In the middle of a transfer. */
    ghost predicate Receiving() reads this {
      && Counting()
      && dir == home + "\\"
      && file == Path(home, infos[curFile].name) && cursor == |got[curFile]|
      && disk == Expected(base, home, infos, got, curFile)
    }

    /** Everything has arrived: the lists are cleared, the disk is final. */
    ghost predicate Finished() reads this {
      && |got| == |infos| && fileList == [] && DistinctNames(infos)
      && (forall j :: 0 <= j < |infos| ==> |got[j]| == infos[j].size)
      && disk == Expected(base, home, infos, got, |infos|)
    }

    /** `AdvanceFile`: passes over complete files, empty ones included. */
    method AdvanceFile() returns (done: bool)
      requires Receiving()
      modifies this`fileList, this`curFile, this`file, this`cursor, this`disk, this`got
      ensures got == old(Advance(infos, got))
      ensures done <==> Complete(infos, got)
      ensures if done then Finished() else Receiving() && fileList[curFile].size > 0
    {
      while fileList[curFile].size == 0
        invariant Receiving() && Advance(infos, got) == old(Advance(infos, got))
        decreases |fileList| - curFile
      {
        ChangeDate();
        if curFile != |fileList| - 1 {
          OpenNext();
        } else {
          Clear();
          return true;
        }
      }
      Waiting();
      return false;
    }

    lemma Waiting()
      requires Counting() && fileList[curFile].size > 0
      ensures Advance(infos, got) == got && !Complete(infos, got)
    {
    }

    method ChangeDate()
      requires Receiving()
      modifies this`disk
      ensures Counting() && disk == Expected(base, home, infos, got, |got|)
    {
      ExpectedDate(base, home, infos, got);
      disk := disk[file := disk[file].(date := Some(fileList[curFile].date))];
    }

    /** The branch of `AdvanceFile` that ends the transfer. */
    method Clear()
      requires Counting() && curFile == |fileList| - 1 && fileList[curFile].size == 0
      requires disk == Expected(base, home, infos, got, |got|)
      modifies this`fileList
      ensures Finished() && Complete(infos, got) && Advance(infos, got) == got
    {
      fileList := [];
    }

    /** The branch of `AdvanceFile` that goes on to the next file. */
    method OpenNext()
      requires Counting() && curFile < |fileList| - 1 && fileList[curFile].size == 0
      requires dir == home + "\\"
      requires disk == Expected(base, home, infos, got, |got|)
      modifies this`curFile, this`file, this`cursor, this`disk, this`got
      ensures Receiving() && Advance(infos, got) == old(Advance(infos, got))
      ensures curFile == old(curFile) + 1
    {
      assert Advance(infos, got) == Advance(infos, got + [[]]);
      ExpectedOpen(base, home, infos, got);
      curFile := curFile + 1;
      file := dir + fileList[curFile].name;
      disk := Opened(disk, file);
      cursor := 0;
      got := got + [[]];
    }

    /** `InitFirstFile`: true when there is nothing to wait for. */
    method InitFirstFile() returns (done: bool)
      requires fileList != [] && DistinctNames(fileList)
      modifies this
      ensures infos == old(fileList) && home == old(dir) && base == old(disk) && dirs == old(dirs)
      ensures got == Advance(infos, [[]])
      ensures done <==> Complete(infos, got)
      ensures if done then Finished() else Receiving() && fileList[curFile].size > 0
    {
      OpenFirst();
      done := AdvanceFile();
    }

    method OpenFirst()
      requires fileList != [] && DistinctNames(fileList)
      modifies this
      ensures infos == old(fileList) && home == old(dir) && base == old(disk) && dirs == old(dirs)
      ensures got == [[]] && Receiving()
    {
      infos, home, base := fileList, dir, disk;
      ExpectedFirst(disk, dir, fileList);
      dir := dir + "\\";
      curFile := 0;
      file := dir + fileList[curFile].name;
      disk := Opened(disk, file);
      cursor := 0;
      got := [[]];
    }

    /** `ReadFiles`: takes in one piece and reports completion. */
    method ReadFiles(piece: seq<Byte>) returns (done: bool)
      requires Receiving() && |piece| <= fileList[curFile].size
      modifies this`fileList, this`curFile, this`file, this`cursor, this`disk, this`got
      ensures got == old(Extended(infos, got, piece))
      ensures done <==> Complete(infos, got)
      ensures if done then Finished() else Receiving() && fileList[curFile].size > 0
    {
      ExpectedWrite(base, home, infos, got, piece);
      disk := disk[file := disk[file].(content := WriteAt(disk[file].content, cursor, piece))];
      cursor := cursor + |piece|;
      fileList := fileList[curFile := fileList[curFile].(size := fileList[curFile].size - |piece|)];
      got := got[curFile := got[curFile] + piece];
      done := AdvanceFile();
    }

    /** Whether the disk has a file of that name in the directory with that date. */
    predicate Has(d: string, f: FileInfo) reads this {
      Path(d, f.name) in disk && disk[Path(d, f.name)].date == Some(f.date)
    }

    /** The directory with all the listed files is there. */
    ghost predicate Present(list: seq<FileInfo>, listDir: string) reads this {
      listDir in dirs && forall j :: 0 <= j < |list| ==> Has(listDir, list[j])
    }

    /** When all has arrived, all listed files are there with their dates. */
    lemma FinishedPresent()
      requires Finished()
      ensures forall j :: 0 <= j < |infos| ==> Has(home, infos[j])
    {
      AllArrived(base, home, infos, got);
      forall j | 0 <= j < |infos| ensures Has(home, infos[j]) {
        assert Arrived(disk, base, home, infos[j], got[j]);
      }
    }

    /** `HaveFileList`: true when every listed file is there already with its
        date, or when the transfer that it starts has nothing to wait for. Either
        way every listed file is there then. */
    method HaveFileList(list: seq<FileInfo>, listDir: string) returns (have: bool)
      requires list != [] && DistinctNames(list)
      modifies this
      ensures if old(listDir in dirs && forall j :: 0 <= j < |list| ==>
                       var path := listDir + "\\" + list[j].name;
                       path in disk && disk[path].date == Some(list[j].date)) then
                have && disk == old(disk) && dirs == old(dirs)
              else
                && infos == list && home == listDir && base == old(disk) && got == Advance(list, [[]])
                && dirs == old(dirs) + {listDir}
                && (have <==> Complete(infos, got))
                && (if have then Finished() else Receiving() && fileList[curFile].size > 0)
      ensures have ==> listDir in dirs && forall j :: 0 <= j < |list| ==>
                var path := listDir + "\\" + list[j].name;
                path in disk && disk[path].date == Some(list[j].date)
    {
      have := FindFiles(list, listDir);
      if !old(Present(list, listDir)) && have {
        FinishedPresent();
      }
    }

    /** What `HaveFileList` does, said by `Present`. */
    method FindFiles(list: seq<FileInfo>, listDir: string) returns (have: bool)
      requires list != [] && DistinctNames(list)
      modifies this
      ensures if old(Present(list, listDir)) then
                have && disk == old(disk) && dirs == old(dirs)
              else
                && infos == list && home == listDir && base == old(disk) && got == Advance(list, [[]])
                && dirs == old(dirs) + {listDir}
                && (have <==> Complete(infos, got))
                && (if have then Finished() else Receiving() && fileList[curFile].size > 0)
    {
      fileList, dir := list, listDir;
      if dir !in dirs {
        dirs := dirs + {dir};
        have := InitFirstFile();
        return;
      }
      assert dirs == dirs + {listDir};
      var i := 0;
      while i < |fileList|
        invariant 0 <= i <= |list| && fileList == list && dir == listDir
        invariant disk == old(disk) && dirs == old(dirs)
        invariant forall j :: 0 <= j < i ==> old(Has(listDir, list[j]))
      {
        if !Has(dir, fileList[i]) {
          assert !old(Has(listDir, list[i]));
          have := InitFirstFile();
          return;
        }
        i := i + 1;
      }
      return true;
    }
  }

  // ------------------------------------------------------------- both ends together

  /** The pieces still under way are those of file `k` from a position on and
      of the files after it. */
  ghost predicate UnderWay(n: nat, contents: seq<seq<Byte>>, k: nat, pos: nat, left: seq<seq<Byte>>)
    requires n >= 1
    decreases |contents| - k, if k < |contents| then |contents[k]| - pos else 0
  {
    if k >= |contents| then left == []
    else if pos >= |contents[k]| then UnderWay(n, contents, k + 1, 0, left)
    else
      var size := Min(n, |contents[k]| - pos);
      left != [] && left[0] == Slice(contents[k], pos, size) && UnderWay(n, contents, k, pos + size, left[1..])
  }

  lemma {:induction false} AllUnderWay(n: nat, contents: seq<seq<Byte>>, k: nat, pos: nat)
    requires n >= 1 && k < |contents|
    ensures UnderWay(n, contents, k, pos, Pieces(n, contents[k], pos) + AllPieces(n, contents, k + 1))
    decreases |contents| - k, |contents[k]| - pos
  {
    var left, later := Pieces(n, contents[k], pos) + AllPieces(n, contents, k + 1), AllPieces(n, contents, k + 1);
    if pos < |contents[k]| {
      var size := Min(n, |contents[k]| - pos);
      AllUnderWay(n, contents, k, pos + size);
      assert left[1..] == Pieces(n, contents[k], pos + size) + later;
    } else {
      assert left == later;
      if k + 1 < |contents| {
        AllUnderWay(n, contents, k + 1, 0);
      }
    }
  }

  /** What has arrived is what was sent so far, and the rest is under way. */
  ghost predicate InStep(n: nat, infos: seq<FileInfo>, contents: seq<seq<Byte>>, got: seq<seq<Byte>>,
                         left: seq<seq<Byte>>)
    requires n >= 1
  {
    && 0 < |got| <= |infos| && SizesMatch(infos, contents)
    && (forall j :: 0 <= j < |got| - 1 ==> got[j] == contents[j])
    && got[|got| - 1] <= contents[|got| - 1]
    && UnderWay(n, contents, |got| - 1, |got[|got| - 1]|, left)
  }

  /** Passing over complete files keeps the two ends in step and stops where
      another piece is due, or at the very end. */
  lemma {:induction false} AdvanceInStep(n: nat, infos: seq<FileInfo>, contents: seq<seq<Byte>>,
                                         got: seq<seq<Byte>>, left: seq<seq<Byte>>)
    requires n >= 1 && InStep(n, infos, contents, got, left)
    ensures InStep(n, infos, contents, Advance(infos, got), left)
    ensures Complete(infos, Advance(infos, got)) <==> left == []
    decreases |infos| - |got|
  {
    var k := |got| - 1;
    if |got[k]| == infos[k].size {
      assert got[k] == contents[k];
      assert UnderWay(n, contents, k + 1, 0, left);
      if k + 1 < |infos| {
        AdvanceInStep(n, infos, contents, got + [[]], left);
      }
    }
  }

  /** The next piece lies within the current file, and taking it in keeps the
      two ends in step. */
  lemma PieceInStep(n: nat, infos: seq<FileInfo>, contents: seq<seq<Byte>>, got: seq<seq<Byte>>, left: seq<seq<Byte>>)
    requires n >= 1 && InStep(n, infos, contents, got, left)
    requires left != [] && |got[|got| - 1]| < infos[|got| - 1].size
    ensures var k := |got| - 1;
            && 0 < |left[0]| <= infos[k].size - |got[k]|
            && InStep(n, infos, contents, got[k := got[k] + left[0]], left[1..])
  {
  }

  /** A whole transfer to a client that does not have the files yet: every file
      arrives, over what was there before, with its date. Completion is
      reported exactly once: by the handling of the list when all files are
      empty, otherwise by the last piece and no piece before it. Asking again
      afterwards finds the files in place. */
  method Transfer(sender: FileSend, receiver: FileReceive, dir: string, maxBuffSize: nat)
    returns (reports: seq<bool>, again: bool)
    requires sender.Valid() && sender.fileList != [] && DistinctNames(sender.fileList)
    requires maxBuffSize > MSG_OFFSET
    requires sender.running >= |AllPieces(maxBuffSize - MSG_OFFSET, sender.contents, 0)| + 2 * |sender.fileList|
    requires !(dir in receiver.dirs && forall j :: 0 <= j < |sender.fileList| ==>
                 var path := dir + "\\" + sender.fileList[j].name;
                 path in receiver.disk && receiver.disk[path].date == Some(sender.fileList[j].date))
    modifies sender, receiver
    ensures |reports| == 1 + |AllPieces(maxBuffSize - MSG_OFFSET, sender.contents, 0)|
    ensures forall i :: 0 <= i < |reports| ==> (reports[i] <==> i == |reports| - 1)
    ensures forall j :: 0 <= j < |sender.fileList| ==>
              Arrived(receiver.disk, old(receiver.disk), dir, sender.fileList[j], sender.contents[j])
    ensures OthersKept(receiver.disk, old(receiver.disk), dir, sender.fileList)
    ensures again
  {
    hide OthersKept;
    reports := FirstTransfer(sender, receiver, dir, maxBuffSize);
    again := receiver.HaveFileList(sender.fileList, dir);
  }

  method FirstTransfer(sender: FileSend, receiver: FileReceive, dir: string, maxBuffSize: nat)
    returns (reports: seq<bool>)
    requires sender.Valid() && sender.fileList != [] && DistinctNames(sender.fileList)
    requires maxBuffSize > MSG_OFFSET
    requires sender.running >= |AllPieces(maxBuffSize - MSG_OFFSET, sender.contents, 0)| + 2 * |sender.fileList|
    requires !receiver.Present(sender.fileList, dir)
    modifies sender, receiver
    ensures |reports| == 1 + |AllPieces(maxBuffSize - MSG_OFFSET, sender.contents, 0)|
    ensures forall i :: 0 <= i < |reports| ==> (reports[i] <==> i == |reports| - 1)
    ensures forall j :: 0 <= j < |sender.fileList| ==>
              Arrived(receiver.disk, old(receiver.disk), dir, sender.fileList[j], sender.contents[j])
    ensures OthersKept(receiver.disk, old(receiver.disk), dir, sender.fileList)
    ensures dir in receiver.dirs
  {
    hide Advance, AllPieces, Complete, DistinctNames, Arrived, OthersKept;
    var done := receiver.HaveFileList(sender.fileList, dir);
    var ok, pieces := sender.SendFiles(maxBuffSize);
    var more := Deliver(receiver, pieces, maxBuffSize - MSG_OFFSET, sender.contents);
    reports := [done] + more;
    ReportsConcat(done, more);
  }

  lemma ReportsConcat(done: bool, more: seq<bool>)
    requires done <==> more == []
    requires forall i :: 0 <= i < |more| ==> (more[i] <==> i == |more| - 1)
    ensures forall i :: 0 <= i < |[done] + more| ==> (([done] + more)[i] <==> i == |more|)
  {
  }

  /** The file is on the disk with its date, written over what was there before. */
  ghost predicate Arrived(disk: Disk, before: Disk, dir: string, info: FileInfo, content: seq<Byte>) {
    var path := dir + "\\" + info.name;
    var was := if path in before then before[path].content else [];
    && path in disk && disk[path].date == Some(info.date)
    && disk[path].content == content + (if |content| <= |was| then was[|content|..] else [])
  }

  /** Opening does not truncate: the file on the disk is the one that was sent
      exactly when no longer one was there. */
  lemma ArrivedExact(disk: Disk, before: Disk, dir: string, info: FileInfo, content: seq<Byte>)
    requires Arrived(disk, before, dir, info, content)
    ensures var path := dir + "\\" + info.name;
            disk[path].content == content <==> path !in before || |before[path].content| <= |content|
  {
  }

  /** All files but the listed ones are as they were. */
  ghost predicate OthersKept(disk: Disk, before: Disk, dir: string, infos: seq<FileInfo>) {
    forall path: string :: (forall j :: 0 <= j < |infos| ==> path != Path(dir, infos[j].name)) ==>
      && (path in disk <==> path in before)
      && (path in before ==> disk[path] == before[path])
  }

  lemma OthersUntouched(base: Disk, dir: string, infos: seq<FileInfo>, got: seq<seq<Byte>>, dated: nat)
    requires |got| <= |infos|
    ensures OthersKept(Expected(base, dir, infos, got, dated), base, dir, infos)
  {
    var disk := Expected(base, dir, infos, got, dated);
    forall path: string | forall j :: 0 <= j < |infos| ==> path != Path(dir, infos[j].name)
      ensures (path in disk <==> path in base) && (path in base ==> disk[path] == base[path])
    {
      ExpectedUntouched(base, dir, infos, got, dated, path);
    }
  }

  lemma AllArrived(base: Disk, dir: string, infos: seq<FileInfo>, got: seq<seq<Byte>>)
    requires |got| == |infos| && DistinctNames(infos)
    ensures forall j :: 0 <= j < |infos| ==>
      Arrived(Expected(base, dir, infos, got, |infos|), base, dir, infos[j], got[j])
  {
    forall j | 0 <= j < |infos|
      ensures Arrived(Expected(base, dir, infos, got, |infos|), base, dir, infos[j], got[j])
    {
      ExpectedAt(base, dir, infos, got, |infos|, j);
    }
  }

  /** The connection: the pieces arrive one after the other. */
  method Deliver(receiver: FileReceive, pieces: seq<seq<Byte>>, ghost n: nat, ghost contents: seq<seq<Byte>>)
    returns (reports: seq<bool>)
    requires n >= 1 && receiver.infos != [] && SizesMatch(receiver.infos, contents)
    requires pieces == AllPieces(n, contents, 0) && receiver.got == Advance(receiver.infos, [[]])
    requires if Complete(receiver.infos, receiver.got) then receiver.Finished()
             else receiver.Receiving() && receiver.fileList[receiver.curFile].size > 0
    modifies receiver`fileList, receiver`curFile, receiver`file, receiver`cursor, receiver`disk, receiver`got
    ensures forall j :: 0 <= j < |receiver.infos| ==>
              Arrived(receiver.disk, receiver.base, receiver.home, receiver.infos[j], contents[j])
    ensures OthersKept(receiver.disk, receiver.base, receiver.home, receiver.infos)
    ensures |reports| == |pieces| && (pieces == [] <==> old(Complete(receiver.infos, receiver.got)))
    ensures forall i :: 0 <= i < |reports| ==> (reports[i] <==> i == |reports| - 1)
  {
    StartInStep(n, receiver.infos, contents);
    reports := TakeIn(receiver, pieces, n, contents);
    AllArrived(receiver.base, receiver.home, receiver.infos, contents);
    OthersUntouched(receiver.base, receiver.home, receiver.infos, contents, |receiver.infos|);
  }

  /** The receiver's end of it: as long as both ends are in step, every piece
      but the last leaves something to wait for. */
  method TakeIn(receiver: FileReceive, pieces: seq<seq<Byte>>, ghost n: nat, ghost contents: seq<seq<Byte>>)
    returns (reports: seq<bool>)
    requires n >= 1 && InStep(n, receiver.infos, contents, receiver.got, pieces)
    requires if pieces == [] then receiver.Finished()
             else receiver.Receiving() && receiver.fileList[receiver.curFile].size > 0
    modifies receiver`fileList, receiver`curFile, receiver`file, receiver`cursor, receiver`disk, receiver`got
    ensures receiver.Finished() && receiver.got == contents
    ensures |reports| == |pieces|
    ensures forall i :: 0 <= i < |reports| ==> (reports[i] <==> i == |reports| - 1)
  {
    hide UnderWay, Advance, Extended, InStep;
    reports := [];
    var left := pieces;
    while left != []
      invariant |reports| + |left| == |pieces|
      invariant forall j :: 0 <= j < |reports| ==> (reports[j] <==> j == |pieces| - 1)
      invariant InStep(n, receiver.infos, contents, receiver.got, left)
      invariant if left == [] then receiver.Finished()
                else receiver.Receiving() && receiver.fileList[receiver.curFile].size > 0
      decreases |left|
    {
      NextInStep(n, receiver.infos, contents, receiver.got, left);
      var done := receiver.ReadFiles(left[0]);
      reports := reports + [done];
      left := left[1..];
    }
    EndInStep(n, receiver.infos, contents, receiver.got);
  }

  lemma StartInStep(n: nat, infos: seq<FileInfo>, contents: seq<seq<Byte>>)
    requires n >= 1 && infos != [] && SizesMatch(infos, contents)
    ensures InStep(n, infos, contents, Advance(infos, [[]]), AllPieces(n, contents, 0))
    ensures Complete(infos, Advance(infos, [[]])) <==> AllPieces(n, contents, 0) == []
  {
    AllUnderWay(n, contents, 0, 0);
    AdvanceInStep(n, infos, contents, [[]], AllPieces(n, contents, 0));
  }

  lemma NextInStep(n: nat, infos: seq<FileInfo>, contents: seq<seq<Byte>>, got: seq<seq<Byte>>, left: seq<seq<Byte>>)
    requires n >= 1 && InStep(n, infos, contents, got, left)
    requires left != [] && |got[|got| - 1]| < infos[|got| - 1].size
    ensures |left[0]| <= infos[|got| - 1].size - |got[|got| - 1]|
    ensures InStep(n, infos, contents, Extended(infos, got, left[0]), left[1..])
    ensures Complete(infos, Extended(infos, got, left[0])) <==> left[1..] == []
  {
    PieceInStep(n, infos, contents, got, left);
    var k := |got| - 1;
    AdvanceInStep(n, infos, contents, got[k := got[k] + left[0]], left[1..]);
  }

  /** In step with nothing under way and nothing missing means all is there. */
  lemma EndInStep(n: nat, infos: seq<FileInfo>, contents: seq<seq<Byte>>, got: seq<seq<Byte>>)
    requires n >= 1 && InStep(n, infos, contents, got, []) && |got| == |infos|
    requires forall j :: 0 <= j < |infos| ==> |got[j]| == infos[j].size
    ensures got == contents
  {
    var k := |got| - 1;
    assert got[k] == contents[k];
  }
}
