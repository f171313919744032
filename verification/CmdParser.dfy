/** `CmdParser.cpp`: a command line cut up in place. */
module CmdParsers {
  import opened Basics

  const NUL: char := '\0'

  /** Pointers into the buffer. */
  datatype ParamData = ParamData(param: nat, data: Option<nat>)

  /** How the walk over the buffer ends: at a terminator, at a `=` with no
      parameter to belong to, or by reading outside the buffer. */
  datatype Stop = AtEnd | NoParam | Outside

  datatype Parsed = Parsed(buf: string, cmd: bool, args: seq<ParamData>, stop: Stop, at: nat)

  /** The walk from position `c` on. */
  function Walk(buf: string, c: nat, cmd: bool, args: seq<ParamData>): (r: Parsed)
    ensures |r.buf| == |buf|
    decreases |buf| - c
  {
    if c >= |buf| then Parsed(buf, cmd, args, Outside, c)
    else if buf[c] == NUL then Parsed(buf, cmd, args, AtEnd, c)
    else if cmd && buf[c] == '-' then Walk(buf, c + 2, cmd, args + [ParamData(c + 1, None)])
    else if cmd && buf[c] == ' ' then Walk(buf[c := NUL], c + 1, cmd, args)
    else if cmd && buf[c] == '=' then
      if args == [] then Parsed(buf[c := NUL], cmd, args, NoParam, c)
      else Walk(buf[c := NUL], c + 1, cmd, WithData(args, c + 1))
    else if buf[c] == ' ' then Walk(buf[c := NUL], c + 1, true, args)
    else Walk(buf, c + 1, cmd, args)
  }

  function WithData(args: seq<ParamData>, data: nat): seq<ParamData>
    requires args != []
  {
    args[|args| - 1 := args[|args| - 1].(data := Some(data))]
  }

  /** The whole of `ParseCmd`. */
  function Parse(buf: string): Parsed {
    var p := Walk(buf, 0, false, []);
    if p.stop == AtEnd && p.args == [] then p.(cmd := true) else p
  }

  /** The string a pointer into the buffer stands for. */
  function CStr(buf: string, i: nat): string
    decreases |buf| - i
  {
    if i >= |buf| || buf[i] == NUL then "" else [buf[i]] + CStr(buf, i + 1)
  }

  class CmdParser {
    var cmd: Option<nat>
    var args: seq<ParamData>

    constructor ()
      ensures cmd == None && args == []
    {
      cmd, args := None, [];
    }

    method ParseCmd(str: array<char>) returns (stop: Stop)
      modifies this, str
      ensures var p := Parse(old(str[..]));
              && str[..] == p.buf && args == p.args && stop == p.stop
              && cmd == (if p.cmd then Some(0) else None)
    {
      cmd, args := None, [];
      var c := 0;
      while c < str.Length && str[c] != NUL
        invariant 0 <= c
        invariant cmd == None || cmd == Some(0)
        invariant Walk(str[..], c, cmd.Some?, args) == Walk(old(str[..]), 0, false, [])
        decreases str.Length - c
      {
        if cmd.Some? && str[c] == '-' {
          args := args + [ParamData(c + 1, None)];
          c := c + 1;
        } else {
          if cmd.Some? {
            if str[c] == ' ' {
              str[c] := NUL;
            } else if str[c] == '=' {
              str[c] := NUL;
              if args == [] {
                return NoParam;
              }
              args := WithData(args, c + 1);
            }
          } else if str[c] == ' ' {
            str[c] := NUL;
            cmd := Some(0);
          }
        }
        c := c + 1;
      }
      if c >= str.Length {
        return Outside;
      }
      if args == [] {
        cmd := Some(0);
      }
      return AtEnd;
    }

    /** A parameter of that name was given. */
    method IsSet(str: array<char>, argv: string) returns (r: bool)
      ensures r <==> exists i :: 0 <= i < |args| && CStr(str[..], args[i].param) == argv
    {
      var i := 0;
      while i < |args|
        invariant 0 <= i <= |args|
        invariant forall j :: 0 <= j < i ==> CStr(str[..], args[j].param) != argv
      {
        if CStr(str[..], args[i].param) == argv {
          return true;
        }
        i := i + 1;
      }
      return false;
    }

    predicate CmdComp(str: array<char>, other: string)
      requires cmd.Some?
      reads this, str
    {
      CStr(str[..], cmd.value) == other
    }
  }

  // ------------------------------------------------------------- where the walk ends

  function FirstSpace(text: string, c: nat): (r: nat)
    requires c <= |text|
    ensures c <= r <= |text|
    decreases |text| - c
  {
    if c == |text| || text[c] == ' ' then c else FirstSpace(text, c + 1)
  }

  /** The first `-` or `=` from a position on. */
  function FirstMark(text: string, c: nat): (r: nat)
    requires c <= |text|
    ensures c <= r <= |text|
    decreases |text| - c
  {
    if c == |text| || text[c] == '-' || text[c] == '=' then c else FirstMark(text, c + 1)
  }

  /** How many dashes the text ends with, not counting any before `c`. */
  function Dashes(text: string, c: nat): (r: nat)
    requires c <= |text|
    ensures r <= |text| - c
    decreases |text| - c
  {
    if c == |text| then 0
    else if text[c] == '-' && Dashes(text, c + 1) == |text| - (c + 1) then |text| - c
    else Dashes(text, c + 1)
  }

  /** After the command comes a `=` before any parameter. */
  predicate Orphan(text: string) {
    var s := FirstSpace(text, 0);
    s < |text| && var m := FirstMark(text, s + 1); m < |text| && text[m] == '='
  }

  /** The parameters end with an odd number of dashes in a row. */
  predicate Runaway(text: string) {
    var s := FirstSpace(text, 0);
    s < |text| && Dashes(text, s + 1) % 2 == 1 && !Orphan(text)
  }

  /** `buf` still holds `text` and its terminator from position `c` on. */
  ghost predicate Holds(buf: string, text: string, c: nat) {
    && |text| < |buf| && buf[|text|] == NUL && NUL !in text
    && forall j :: c <= j < |text| ==> buf[j] == text[j]
  }

  lemma {:induction false} EndsAfter(buf: string, c: nat, cmd: bool, args: seq<ParamData>)
    ensures var p := Walk(buf, c, cmd, args);
            p.at >= c && (p.stop == Outside <==> p.at >= |buf|)
    decreases |buf| - c
  {
    if c < |buf| && buf[c] != NUL {
      if cmd && buf[c] == '-' {
        EndsAfter(buf, c + 2, cmd, args + [ParamData(c + 1, None)]);
      } else if buf[c] == ' ' {
        EndsAfter(buf[c := NUL], c + 1, true, args);
      } else if cmd && buf[c] == '=' {
        if args != [] {
          EndsAfter(buf[c := NUL], c + 1, cmd, WithData(args, c + 1));
        }
      } else {
        EndsAfter(buf, c + 1, cmd, args);
      }
    }
  }

  /** With a parameter at hand, only the dashes at the end matter. */
  lemma {:induction false} ParamsEnd(buf: string, text: string, c: nat, args: seq<ParamData>)
    requires Holds(buf, text, c) && c <= |text| && args != []
    ensures var p := Walk(buf, c, true, args);
            (p.at > |text| <==> Dashes(text, c) % 2 == 1) && p.stop != NoParam
    decreases |text| - c
  {
    if c < |text| {
      assert text[c] in text;
      if text[c] == '-' {
        var more := args + [ParamData(c + 1, None)];
        if c + 2 <= |text| {
          ParamsEnd(buf, text, c + 2, more);
        } else {
          EndsAfter(buf, c + 2, true, more);
          NeverOrphan(buf, c + 2, more);
        }
      } else if text[c] == ' ' {
        ParamsEnd(buf[c := NUL], text, c + 1, args);
      } else if text[c] == '=' {
        ParamsEnd(buf[c := NUL], text, c + 1, WithData(args, c + 1));
      } else {
        ParamsEnd(buf, text, c + 1, args);
      }
    }
  }

  lemma {:induction false} NeverOrphan(buf: string, c: nat, args: seq<ParamData>)
    requires args != []
    ensures Walk(buf, c, true, args).stop != NoParam
    decreases |buf| - c
  {
    if c < |buf| && buf[c] != NUL {
      if buf[c] == '-' {
        NeverOrphan(buf, c + 2, args + [ParamData(c + 1, None)]);
      } else if buf[c] == ' ' {
        NeverOrphan(buf[c := NUL], c + 1, args);
      } else if buf[c] == '=' {
        NeverOrphan(buf[c := NUL], c + 1, WithData(args, c + 1));
      } else {
        NeverOrphan(buf, c + 1, args);
      }
    }
  }

  /** Before the first parameter. */
  lemma {:induction false} CommandEnd(buf: string, text: string, c: nat)
    requires Holds(buf, text, c) && c <= |text|
    ensures var p, m := Walk(buf, c, true, []), FirstMark(text, c);
            && (p.stop == NoParam <==> m < |text| && text[m] == '=')
            && (p.at > |text| <==> Dashes(text, c) % 2 == 1 && p.stop != NoParam)
    decreases |text| - c
  {
    if c < |text| {
      assert text[c] in text;
      if text[c] == '-' {
        var none: seq<ParamData> := [];
        var more := none + [ParamData(c + 1, None)];
        if c + 2 <= |text| {
          ParamsEnd(buf, text, c + 2, more);
        } else {
          EndsAfter(buf, c + 2, true, more);
          NeverOrphan(buf, c + 2, more);
        }
      } else if text[c] == ' ' {
        CommandEnd(buf[c := NUL], text, c + 1);
      } else if text[c] != '=' {
        CommandEnd(buf, text, c + 1);
      }
    }
  }

  lemma {:induction false} WalkToSpace(buf: string, text: string, c: nat)
    requires Holds(buf, text, c) && c <= |text|
    ensures Walk(buf, c, false, []) == Walk(buf, FirstSpace(text, c), false, [])
    decreases |text| - c
  {
    if c < |text| && text[c] != ' ' {
      assert text[c] in text;
      WalkToSpace(buf, text, c + 1);
    }
  }

  /** For every NUL-terminated text, whatever lies behind it: the walk runs past
      the terminator exactly when the parameters end with an odd number of
      dashes in a row and no `=` came before the first parameter; in the latter
      case, and no other, the parser reports failure. */
  lemma {:induction false} StaysInside(text: string, behind: string)
    requires NUL !in text
    ensures var p := Parse(text + [NUL] + behind);
            && (p.at > |text| <==> Runaway(text))
            && (p.stop == NoParam <==> Orphan(text))
            && (p.stop == AtEnd ==> p.cmd)
            && (behind == "" ==> (p.stop == Outside <==> Runaway(text)))
  {
    var buf := text + [NUL] + behind;
    WalkToSpace(buf, text, 0);
    var s := FirstSpace(text, 0);
    if s < |text| {
      SpaceFound(text, 0);
      CommandEnd(buf[s := NUL], text, s + 1);
    }
    KeepsCommand(buf, 0, false, []);
    EndsAfter(buf, 0, false, []);
  }

  lemma {:induction false} SpaceFound(text: string, c: nat)
    requires c <= |text|
    ensures var s := FirstSpace(text, c); s < |text| ==> text[s] == ' '
    decreases |text| - c
  {
    if c < |text| && text[c] != ' ' {
      SpaceFound(text, c + 1);
    }
  }

  /** There are parameters only behind a command. */
  lemma {:induction false} KeepsCommand(buf: string, c: nat, cmd: bool, args: seq<ParamData>)
    requires args != [] ==> cmd
    ensures var p := Walk(buf, c, cmd, args); p.args != [] ==> p.cmd
    decreases |buf| - c
  {
    if c < |buf| && buf[c] != NUL {
      if cmd && buf[c] == '-' {
        KeepsCommand(buf, c + 2, cmd, args + [ParamData(c + 1, None)]);
      } else if buf[c] == ' ' {
        KeepsCommand(buf[c := NUL], c + 1, true, args);
      } else if cmd && buf[c] == '=' {
        if args != [] {
          KeepsCommand(buf[c := NUL], c + 1, cmd, WithData(args, c + 1));
        }
      } else {
        KeepsCommand(buf, c + 1, cmd, args);
      }
    }
  }

  /** A lone dash at the end of the text is enough. */
  lemma {:induction false} LoneDash()
    ensures NUL !in "cmd -" && Parse("cmd -" + [NUL]).stop == Outside
  {
    var text := "cmd -";
    assert FirstSpace(text, 0) == 3 by {
      assert FirstSpace(text, 3) == 3;
    }
    assert Dashes(text, 4) == 1 && FirstMark(text, 4) == 4;
    StaysInside(text, "");
    assert text + [NUL] + "" == text + [NUL];
  }

  // ------------------------------------------------------------- what every text is parsed to

  /** How many dashes stand directly before position `i`, behind the first space `s`. */
  function Run(text: string, s: nat, i: nat): nat
    requires i <= |text|
  {
    if i > s + 1 && text[i - 1] == '-' then 1 + Run(text, s, i - 1) else 0
  }

  /** The character belongs to the dash before it. */
  predicate Skipped(text: string, s: nat, i: nat)
    requires i <= |text|
  {
    Run(text, s, i) % 2 == 1
  }

  /** A dash that begins a parameter. */
  predicate Begins(text: string, s: nat, i: nat) {
    s < i < |text| && text[i] == '-' && !Skipped(text, s, i)
  }

  /** An equals sign that gives a parameter its value. */
  predicate Assigns(text: string, s: nat, i: nat) {
    s < i < |text| && text[i] == '=' && !Skipped(text, s, i)
  }

  /** A character that a terminator is written over. */
  predicate Cut(text: string, s: nat, i: nat) {
    s <= i < |text| && (i == s || ((text[i] == ' ' || text[i] == '=') && !Skipped(text, s, i)))
  }

  /** Up to position `c` the buffer is cut, from there on it is the text. */
  ghost predicate CutSoFar(buf: string, text: string, s: nat, c: nat) {
    && Holds(buf, text, c)
    && forall i :: 0 <= i < c && i < |text| ==> buf[i] == if Cut(text, s, i) then NUL else text[i]
  }

  /** The positions before `c` where parameters begin, in order. */
  function Starts(text: string, s: nat, c: nat): (r: seq<nat>)
    ensures forall j :: 0 <= j < |r| ==> r[j] < c
  {
    if c == 0 then [] else Starts(text, s, c - 1) + (if Begins(text, s, c - 1) then [c - 1] else [])
  }

  /** The position behind the last value-giving equals sign in a range, if there is one. */
  function LastValue(text: string, s: nat, start: nat, end: nat): Option<nat>
    decreases end
  {
    if end <= start then None
    else if Assigns(text, s, end - 1) then Some(end)
    else LastValue(text, s, start, end - 1)
  }

  /** The parameter that begins at the `j`-th of the given places: its name
      follows the dash, its value the last equals sign before the next one. */
  function ParamAt(text: string, s: nat, starts: seq<nat>, j: nat, c: nat): ParamData
    requires j < |starts|
  {
    ParamData(starts[j] + 1, LastValue(text, s, starts[j] + 1, if j + 1 < |starts| then starts[j + 1] else c))
  }

  /** The parameters of the text up to `c`. */
  function ParamsOf(text: string, s: nat, c: nat): (r: seq<ParamData>)
    ensures |r| == |Starts(text, s, c)|
    ensures forall j :: 0 <= j < |r| ==> r[j] == ParamAt(text, s, Starts(text, s, c), j, c)
  {
    var starts := Starts(text, s, c);
    seq(|starts|, j requires 0 <= j < |starts| => ParamAt(text, s, starts, j, c))
  }

  /** Behind a dash that begins a parameter comes one skipped character. */
  lemma RunNext(text: string, s: nat, c: nat)
    requires s < c < |text| && !Skipped(text, s, c)
    ensures text[c] == '-' ==> Skipped(text, s, c + 1) && (c + 1 < |text| ==> !Skipped(text, s, c + 2))
    ensures text[c] != '-' ==> !Skipped(text, s, c + 1)
  {
  }

  lemma CutBegin(buf: string, text: string, s: nat, c: nat)
    requires s < c < |text| - 1 && !Skipped(text, s, c) && text[c] == '-' && CutSoFar(buf, text, s, c)
    ensures CutSoFar(buf, text, s, c + 2)
  {
    RunNext(text, s, c);
  }

  lemma CutPlain(buf: string, text: string, s: nat, c: nat)
    requires s < c < |text| && !Skipped(text, s, c) && CutSoFar(buf, text, s, c)
    requires text[c] != ' ' && text[c] != '='
    ensures CutSoFar(buf, text, s, c + 1)
  {
  }

  lemma CutMark(buf: string, text: string, s: nat, c: nat)
    requires s < c < |text| && !Skipped(text, s, c) && CutSoFar(buf, text, s, c)
    requires text[c] == ' ' || text[c] == '='
    ensures CutSoFar(buf[c := NUL], text, s, c + 1)
  {
  }

  lemma ParamsBegin(text: string, s: nat, c: nat)
    requires s < c < |text| - 1 && !Skipped(text, s, c) && text[c] == '-'
    ensures ParamsOf(text, s, c + 2) == ParamsOf(text, s, c) + [ParamData(c + 1, None)]
  {
    RunNext(text, s, c);
    hide Skipped;
    var now, next := Starts(text, s, c), Starts(text, s, c + 2);
    assert !Begins(text, s, c + 1) && !Assigns(text, s, c + 1);
    assert next == Starts(text, s, c + 1) == now + [c];
    assert LastValue(text, s, c + 1, c + 2) == None;
    var a, b := ParamsOf(text, s, c) + [ParamData(c + 1, None)], ParamsOf(text, s, c + 2);
    forall j | 0 <= j < |now| ensures b[j] == a[j] {
      SamePlace(text, s, now, next, j, c, c + 2);
    }
    assert b[|now|] == ParamAt(text, s, next, |now|, c + 2) == ParamData(c + 1, None);
  }

  lemma SamePlace(text: string, s: nat, now: seq<nat>, next: seq<nat>, j: nat, c: nat, d: nat)
    requires j < |now| && next == now + [c]
    ensures ParamAt(text, s, next, j, d) == ParamAt(text, s, now, j, c)
  {
    assert next[j] == now[j];
    assert next[j + 1] == if j + 1 < |now| then now[j + 1] else c;
  }

  lemma ParamsOther(text: string, s: nat, c: nat)
    requires s < c < |text| && text[c] != '-' && text[c] != '='
    ensures ParamsOf(text, s, c + 1) == ParamsOf(text, s, c)
  {
    hide Skipped;
    assert !Begins(text, s, c) && !Assigns(text, s, c);
    var now := Starts(text, s, c);
    assert Starts(text, s, c + 1) == now + [] == now;
    forall j | 0 <= j < |now| ensures ParamAt(text, s, now, j, c + 1) == ParamAt(text, s, now, j, c) {
    }
  }

  lemma ParamsAssigned(text: string, s: nat, c: nat)
    requires s < c < |text| && text[c] == '=' && !Skipped(text, s, c) && ParamsOf(text, s, c) != []
    ensures ParamsOf(text, s, c + 1) == WithData(ParamsOf(text, s, c), c + 1)
  {
    hide Skipped;
    assert !Begins(text, s, c) && Assigns(text, s, c);
    var now := Starts(text, s, c);
    assert Starts(text, s, c + 1) == now + [] == now;
    var last := |now| - 1;
    assert ParamAt(text, s, now, last, c + 1) == ParamAt(text, s, now, last, c).(data := Some(c + 1));
    forall j | 0 <= j < last ensures ParamAt(text, s, now, j, c + 1) == ParamAt(text, s, now, j, c) {
    }
  }

  /** What the walk has made of the text so far is what it should be. */
  ghost predicate SoFar(buf: string, text: string, s: nat, c: nat, args: seq<ParamData>) {
    && s < c <= |text| && !Skipped(text, s, c)
    && CutSoFar(buf, text, s, c) && args == ParamsOf(text, s, c)
  }

  lemma BeginSoFar(buf: string, text: string, s: nat, c: nat, args: seq<ParamData>)
    requires SoFar(buf, text, s, c, args) && c < |text| - 1 && text[c] == '-'
    ensures SoFar(buf, text, s, c + 2, args + [ParamData(c + 1, None)])
  {
    hide Skipped, CutSoFar;
    RunNext(text, s, c);
    CutBegin(buf, text, s, c);
    ParamsBegin(text, s, c);
  }

  lemma OtherSoFar(buf: string, text: string, s: nat, c: nat, args: seq<ParamData>)
    requires SoFar(buf, text, s, c, args) && c < |text| && text[c] != '-' && text[c] != '='
    ensures SoFar(if text[c] == ' ' then buf[c := NUL] else buf, text, s, c + 1, args)
  {
    hide Skipped, CutSoFar;
    RunNext(text, s, c);
    ParamsOther(text, s, c);
    if text[c] == ' ' {
      CutMark(buf, text, s, c);
    } else {
      CutPlain(buf, text, s, c);
    }
  }

  lemma ValueSoFar(buf: string, text: string, s: nat, c: nat, args: seq<ParamData>)
    requires SoFar(buf, text, s, c, args) && c < |text| && text[c] == '=' && args != []
    ensures SoFar(buf[c := NUL], text, s, c + 1, WithData(args, c + 1))
  {
    hide Skipped, CutSoFar;
    RunNext(text, s, c);
    ParamsAssigned(text, s, c);
    CutMark(buf, text, s, c);
  }

  lemma {:induction false} WalkSoFar(buf: string, text: string, s: nat, c: nat, args: seq<ParamData>)
    requires SoFar(buf, text, s, c, args) && NUL !in text
    ensures var p := Walk(buf, c, true, args);
            p.stop == AtEnd && p.at <= |text| ==> SoFar(p.buf, text, s, |text|, p.args)
    decreases |text| - c
  {
    HeldAt(buf, text, s, c, args);
    if c < |text| {
      assert text[c] in text;
      hide SoFar, WithData;
      if text[c] == '-' {
        if c + 1 < |text| {
          BeginSoFar(buf, text, s, c, args);
          WalkSoFar(buf, text, s, c + 2, args + [ParamData(c + 1, None)]);
        } else {
          EndsAfter(buf, c + 2, true, args + [ParamData(c + 1, None)]);
        }
      } else if text[c] == '=' {
        if args != [] {
          ValueSoFar(buf, text, s, c, args);
          WalkSoFar(buf[c := NUL], text, s, c + 1, WithData(args, c + 1));
        }
      } else {
        OtherSoFar(buf, text, s, c, args);
        WalkSoFar(if text[c] == ' ' then buf[c := NUL] else buf, text, s, c + 1, args);
      }
    }
  }

  lemma HeldAt(buf: string, text: string, s: nat, c: nat, args: seq<ParamData>)
    requires SoFar(buf, text, s, c, args)
    ensures c <= |text| < |buf| && buf[c] == if c < |text| then text[c] else NUL
  {
  }

  /** For every text that the parser can take: terminators are written over the
      first space and over every later space and equals sign that does not
      belong to a dash, and over nothing else; the parameters are those that
      begin with a dash that does not belong to another, in order; and each has
      as data what follows its last equals sign, if it has one. */
  lemma {:induction false} ParsedExactly(text: string, behind: string)
    requires NUL !in text && !Runaway(text) && !Orphan(text)
    ensures var p, s := Parse(text + [NUL] + behind), FirstSpace(text, 0);
            && p.stop == AtEnd && p.cmd
            && |p.buf| == |text| + 1 + |behind|
            && (forall i :: 0 <= i < |text| ==> p.buf[i] == if Cut(text, s, i) then NUL else text[i])
            && p.args == ParamsOf(text, s, |text|)
  {
    var buf, s := text + [NUL] + behind, FirstSpace(text, 0);
    StaysInside(text, behind);
    EndsAfter(buf, 0, false, []);
    WalkToSpace(buf, text, 0);
    SpaceFound(text, 0);
    if s < |text| {
      FirstCut(buf, text);
      WalkSoFar(buf[s := NUL], text, s, s + 1, []);
    } else {
      NoParams(text, s, |text|);
    }
  }

  lemma {:induction false} NoParams(text: string, s: nat, c: nat)
    requires c <= s + 1
    ensures Starts(text, s, c) == [] && ParamsOf(text, s, c) == []
    decreases c
  {
    if c > 0 {
      NoParams(text, s, c - 1);
    }
  }

  lemma FirstCut(buf: string, text: string)
    requires Holds(buf, text, 0)
    ensures var s := FirstSpace(text, 0);
            s < |text| ==> SoFar(buf[s := NUL], text, s, s + 1, [])
  {
    NoParams(text, FirstSpace(text, 0), FirstSpace(text, 0) + 1);
  }

  /** What those words mean. The places are all positions where a parameter
      begins, and none else; a value is what follows the last equals sign. */
  lemma {:induction false} StartsAre(text: string, s: nat, c: nat, i: nat)
    ensures i in Starts(text, s, c) <==> i < c && Begins(text, s, i)
    ensures forall j, k :: 0 <= j < k < |Starts(text, s, c)| ==> Starts(text, s, c)[j] < Starts(text, s, c)[k]
  {
    if c > 0 {
      StartsAre(text, s, c - 1, i);
    }
  }

  lemma {:induction false} LastValueIs(text: string, s: nat, start: nat, end: nat)
    ensures match LastValue(text, s, start, end)
            case None => forall i :: start <= i < end ==> !Assigns(text, s, i)
            case Some(d) =>
              && start < d <= end && Assigns(text, s, d - 1)
              && forall i :: d <= i < end ==> !Assigns(text, s, i)
    decreases end
  {
    if end > start && !Assigns(text, s, end - 1) {
      LastValueIs(text, s, start, end - 1);
    }
  }

  // ------------------------------------------------------------- what was printed is what is parsed

  /** A parameter and, perhaps, its value. */
  datatype Param = Param(name: string, value: Option<string>)

  function Tail(p: Param): string {
    if p.value.None? then "" else "=" + p.value.value
  }

  /** The parameters from the `k`-th on. */
  function Printed(params: seq<Param>, k: nat): string
    decreases |params| - k
  {
    if k >= |params| then "" else " -" + params[k].name + Tail(params[k]) + Printed(params, k + 1)
  }

  predicate Plain(x: char) {
    x != ' ' && x != '-' && x != '=' && x != NUL
  }

  ghost predicate AllPlain(s: string, k: nat) {
    forall j :: k <= j < |s| ==> Plain(s[j])
  }

  /** The first character of a name can be anything but the terminator: the
      parser skips it. */
  ghost predicate Good(p: Param) {
    p.name != "" && p.name[0] != NUL && AllPlain(p.name, 1) && (p.value.Some? ==> AllPlain(p.value.value, 0))
  }

  ghost predicate AllGood(params: seq<Param>) {
    forall k :: 0 <= k < |params| ==> Good(params[k])
  }

  /** Where the name of a parameter printed at `i` ends, and where the next one
      is printed. */
  function NameEnd(i: nat, p: Param): nat {
    i + 2 + |p.name|
  }

  function NextAt(i: nat, p: Param): nat {
    NameEnd(i, p) + |Tail(p)|
  }

  /** One parameter at position `i`, with the given separators. */
  ghost predicate OneAt(buf: string, i: nat, p: Param, space: char, equals: char) {
    && NextAt(i, p) < |buf| && buf[i] == space && buf[i + 1] == '-' && At(buf, i + 2, p.name)
    && (p.value.Some? ==> buf[NameEnd(i, p)] == equals && At(buf, NameEnd(i, p) + 1, p.value.value))
  }

  /** The parameters from the `k`-th on at position `i`, and a terminator. */
  ghost predicate Laid(buf: string, i: nat, params: seq<Param>, k: nat, space: char, equals: char)
    decreases |params| - k
  {
    if k >= |params| then i < |buf| && buf[i] == NUL
    else OneAt(buf, i, params[k], space, equals) && Laid(buf, NextAt(i, params[k]), params, k + 1, space, equals)
  }

  /** The pointers that belong to the parameters from the `k`-th on, printed at `i`. */
  function Places(i: nat, params: seq<Param>, k: nat): seq<ParamData>
    decreases |params| - k
  {
    if k >= |params| then [] else [PlaceOf(i, params[k])] + Places(NextAt(i, params[k]), params, k + 1)
  }

  function PlaceOf(i: nat, p: Param): ParamData {
    ParamData(i + 2, if p.value.None? then None else Some(NameEnd(i, p) + 1))
  }

  lemma PrintedSplit(name: string, tail: string, more: string)
    ensures " -" + name + tail + more + [NUL] == " -" + (name + (tail + (more + [NUL])))
  {
  }

  lemma PrintedOne(buf: string, i: nat, p: Param, rest: string)
    requires At(buf, i, " -" + (p.name + (Tail(p) + rest))) && rest != ""
    ensures OneAt(buf, i, p, ' ', '=') && At(buf, NextAt(i, p), rest)
  {
    AtSplit(buf, i, " -", p.name + (Tail(p) + rest));
    AtSplit(buf, i + 2, p.name, Tail(p) + rest);
    AtSplit(buf, NameEnd(i, p), Tail(p), rest);
    AtIndex(buf, i, " -");
    if p.value.Some? {
      AtSplit(buf, NameEnd(i, p), "=", p.value.value);
      AtIndex(buf, NameEnd(i, p), "=");
    }
  }

  lemma {:induction false} PrintedLaid(buf: string, i: nat, params: seq<Param>, k: nat)
    requires At(buf, i, Printed(params, k) + [NUL])
    ensures Laid(buf, i, params, k, ' ', '=')
    decreases |params| - k
  {
    if k >= |params| {
      assert Printed(params, k) + [NUL] == [NUL];
      AtIndex(buf, i, [NUL]);
    } else {
      hide At, OneAt, Tail;
      var p := params[k];
      PrintedSplit(p.name, Tail(p), Printed(params, k + 1));
      PrintedOne(buf, i, p, Printed(params, k + 1) + [NUL]);
      PrintedLaid(buf, NextAt(i, p), params, k + 1);
    }
  }

  lemma AtIndex(buf: string, i: nat, s: string)
    requires At(buf, i, s)
    ensures forall j :: 0 <= j < |s| ==> buf[i + j] == s[j]
  {
    forall j | 0 <= j < |s| ensures buf[i + j] == s[j] {
      assert buf[i..i + |s|][j] == s[j];
    }
  }

  /** The two buffers agree from `lo` up to `hi`. */
  ghost predicate Agree(a: string, b: string, lo: nat, hi: nat) {
    |a| == |b| && forall j :: lo <= j < hi && j < |a| ==> a[j] == b[j]
  }

  lemma AgreeWithin(a: string, b: string, hi: nat, lo: nat)
    requires Agree(a, b, 0, hi)
    ensures Agree(a, b, lo, hi)
  {
  }

  lemma AgreeTrans(a: string, b: string, c: string, k: nat, m: nat)
    requires Agree(a, b, 0, k) && Agree(b, c, 0, m) && k <= m
    ensures Agree(a, c, 0, k)
  {
  }

  lemma AtAgree(a: string, b: string, i: nat, s: string)
    requires At(a, i, s) && Agree(a, b, i, i + |s|)
    ensures At(b, i, s)
  {
    assert a[i..i + |s|] == b[i..i + |s|];
  }

  lemma OneAgree(a: string, b: string, i: nat, p: Param, space: char, equals: char)
    requires OneAt(a, i, p, space, equals) && Agree(a, b, i, NextAt(i, p))
    ensures OneAt(b, i, p, space, equals)
  {
    AtAgree(a, b, i + 2, p.name);
    if p.value.Some? {
      AtAgree(a, b, NameEnd(i, p) + 1, p.value.value);
    }
  }

  lemma {:induction false} LaidAgree(a: string, b: string, i: nat, params: seq<Param>, k: nat,
                                     space: char, equals: char)
    requires Laid(a, i, params, k, space, equals) && Agree(a, b, i, |a|)
    ensures Laid(b, i, params, k, space, equals)
    decreases |params| - k
  {
    if k < |params| {
      OneAgree(a, b, i, params[k], space, equals);
      hide OneAt;
      LaidAgree(a, b, NextAt(i, params[k]), params, k + 1, space, equals);
    }
  }

  /** Passing over characters that mean nothing to the parser. */
  lemma {:induction false} WalkPlain(buf: string, i: nat, s: string, k: nat, args: seq<ParamData>)
    requires At(buf, i, s) && AllPlain(s, k) && k <= |s|
    ensures Walk(buf, i + k, true, args) == Walk(buf, i + |s|, true, args)
    decreases |s| - k
  {
    if k < |s| {
      AtIndex(buf, i, s);
      assert Plain(s[k]);
      WalkPlain(buf, i, s, k + 1, args);
    }
  }

  /** What one parameter makes of the buffer. */
  function CutAt(buf: string, i: nat, p: Param): (r: string)
    requires NextAt(i, p) < |buf|
    ensures |r| == |buf| && Agree(buf, r, 0, i) && Agree(buf, r, NextAt(i, p), |buf|)
  {
    if p.value.None? then buf[i := NUL] else buf[i := NUL][NameEnd(i, p) := NUL]
  }

  lemma CutSpace(buf: string, i: nat, p: Param)
    requires OneAt(buf, i, p, ' ', '=')
    ensures OneAt(buf[i := NUL], i, p, NUL, '=')
  {
    var b := buf[i := NUL];
    AtAgree(buf, b, i + 2, p.name);
    if p.value.Some? {
      AtAgree(buf, b, NameEnd(i, p) + 1, p.value.value);
    }
  }

  lemma StepDash(buf: string, i: nat, args: seq<ParamData>)
    requires i + 1 < |buf| && buf[i] == ' ' && buf[i + 1] == '-'
    ensures Walk(buf, i, true, args) == Walk(buf[i := NUL], i + 3, true, args + [ParamData(i + 2, None)])
  {
    var b := buf[i := NUL];
    assert Walk(buf, i, true, args) == Walk(b, i + 1, true, args);
  }

  /** From the space in front of a parameter to the end of its name. */
  lemma WalkName(buf: string, i: nat, p: Param, args: seq<ParamData>)
    requires OneAt(buf, i, p, ' ', '=') && Good(p)
    ensures var b := buf[i := NUL];
            && OneAt(b, i, p, NUL, '=')
            && Walk(buf, i, true, args) == Walk(b, NameEnd(i, p), true, args + [ParamData(i + 2, None)])
  {
    hide Walk, At, AllPlain;
    CutSpace(buf, i, p);
    StepDash(buf, i, args);
    WalkPlain(buf[i := NUL], i + 2, p.name, 1, args + [ParamData(i + 2, None)]);
  }

  lemma CutValue(buf: string, i: nat, p: Param)
    requires OneAt(buf, i, p, NUL, '=') && p.value.Some?
    ensures OneAt(buf[NameEnd(i, p) := NUL], i, p, NUL, NUL)
  {
    var b := buf[NameEnd(i, p) := NUL];
    AtAgree(buf, b, i + 2, p.name);
    AtAgree(buf, b, NameEnd(i, p) + 1, p.value.value);
  }

  lemma LastData(args: seq<ParamData>, param: nat, data: nat)
    ensures WithData(args + [ParamData(param, None)], data) == args + [ParamData(param, Some(data))]
  {
  }

  lemma StepEquals(buf: string, e: nat, args: seq<ParamData>)
    requires e < |buf| && buf[e] == '=' && args != []
    ensures Walk(buf, e, true, args) == Walk(buf[e := NUL], e + 1, true, WithData(args, e + 1))
  {
  }

  /** From the `=` to the end of the value. */
  lemma WalkValue(buf: string, i: nat, p: Param, args: seq<ParamData>)
    requires OneAt(buf, i, p, NUL, '=') && Good(p) && p.value.Some?
    ensures var b := buf[NameEnd(i, p) := NUL];
            && OneAt(b, i, p, NUL, NUL)
            && Walk(buf, NameEnd(i, p), true, args + [ParamData(i + 2, None)])
               == Walk(b, NextAt(i, p), true, args + [PlaceOf(i, p)])
  {
    hide Walk, At, AllPlain;
    var e := NameEnd(i, p);
    CutValue(buf, i, p);
    LastData(args, i + 2, e + 1);
    StepEquals(buf, e, args + [ParamData(i + 2, None)]);
    WalkPlain(buf[e := NUL], e + 1, p.value.value, 0, args + [PlaceOf(i, p)]);
  }

  lemma WalkOne(buf: string, i: nat, p: Param, args: seq<ParamData>)
    requires OneAt(buf, i, p, ' ', '=') && Good(p)
    ensures Walk(buf, i, true, args) == Walk(CutAt(buf, i, p), NextAt(i, p), true, args + [PlaceOf(i, p)])
    ensures OneAt(CutAt(buf, i, p), i, p, NUL, NUL)
  {
    WalkName(buf, i, p, args);
    if p.value.Some? {
      WalkValue(buf[i := NUL], i, p, args);
    }
  }

  /** All printed parameters. */
  lemma {:induction false} WalkAll(buf: string, i: nat, params: seq<Param>, k: nat, args: seq<ParamData>)
    requires Laid(buf, i, params, k, ' ', '=') && AllGood(params)
    ensures var r := Walk(buf, i, true, args);
            && r.cmd && r.stop == AtEnd && r.args == args + Places(i, params, k)
            && Agree(buf, r.buf, 0, i) && Laid(r.buf, i, params, k, NUL, NUL)
    decreases |params| - k
  {
    if k < |params| {
      hide Walk, At, OneAt, Agree, Good;
      var p := params[k];
      var next, cut := NextAt(i, p), CutAt(buf, i, p);
      WalkOne(buf, i, p, args);
      LaidAgree(buf, cut, next, params, k + 1, ' ', '=');
      WalkAll(cut, next, params, k + 1, args + [PlaceOf(i, p)]);
      var r := Walk(buf, i, true, args);
      AgreeWithin(cut, r.buf, next, i);
      OneAgree(cut, r.buf, i, p, NUL, NUL);
      AgreeTrans(buf, cut, r.buf, i, next);
      Regroup(args, PlaceOf(i, p), Places(next, params, k + 1));
    }
  }

  lemma Regroup(args: seq<ParamData>, a: ParamData, more: seq<ParamData>)
    ensures args + [a] + more == args + ([a] + more)
  {
  }

  lemma {:induction false} CStrAt(buf: string, i: nat, s: string, k: nat)
    requires At(buf, i, s) && i + |s| < |buf| && buf[i + |s|] == NUL && NUL !in s && k <= |s|
    ensures CStr(buf, i + k) == s[k..]
    decreases |s| - k
  {
    if k < |s| {
      AtIndex(buf, i, s);
      assert s[k] in s;
      CStrAt(buf, i, s, k + 1);
    }
  }

  lemma CStrWhole(buf: string, i: nat, s: string)
    requires At(buf, i, s) && i + |s| < |buf| && buf[i + |s|] == NUL && NUL !in s
    ensures CStr(buf, i) == s
  {
    CStrAt(buf, i, s, 0);
    assert s[0..] == s;
  }

  /** What the pointers of a parameter stand for. */
  ghost predicate Recovers(buf: string, a: ParamData, p: Param) {
    && CStr(buf, a.param) == p.name
    && (a.data.Some? <==> p.value.Some?)
    && (a.data.Some? ==> CStr(buf, a.data.value) == p.value.value)
  }

  /** After a parameter, cut off, comes a terminator. */
  lemma LaidStart(buf: string, i: nat, params: seq<Param>, k: nat)
    requires Laid(buf, i, params, k, NUL, NUL)
    ensures i < |buf| && buf[i] == NUL
  {
  }

  lemma NoNul(p: Param)
    requires Good(p)
    ensures NUL !in p.name && (p.value.Some? ==> NUL !in p.value.value)
  {
  }

  lemma OneRecovers(buf: string, i: nat, p: Param)
    requires OneAt(buf, i, p, NUL, NUL) && Good(p) && buf[NextAt(i, p)] == NUL
    ensures Recovers(buf, PlaceOf(i, p), p)
  {
    NoNul(p);
    hide Good, CStr, At;
    CStrWhole(buf, i + 2, p.name);
    if p.value.Some? {
      CStrWhole(buf, NameEnd(i, p) + 1, p.value.value);
    }
  }

  /** The pointers recover the parameters from the `k`-th on. */
  ghost predicate AllRecovered(buf: string, args: seq<ParamData>, params: seq<Param>, k: nat) {
    |args| == |params| - k && forall j :: 0 <= j < |args| ==> Recovers(buf, args[j], params[k + j])
  }

  /** `IsSet` finds exactly the names that were given. */
  lemma SetIffGiven(buf: string, args: seq<ParamData>, params: seq<Param>, argv: string)
    requires AllRecovered(buf, args, params, 0)
    ensures (exists i :: 0 <= i < |args| && CStr(buf, args[i].param) == argv)
       <==> (exists j :: 0 <= j < |params| && params[j].name == argv)
  {
    if i :| 0 <= i < |args| && CStr(buf, args[i].param) == argv {
      assert Recovers(buf, args[i], params[0 + i]);
    }
    if j :| 0 <= j < |params| && params[j].name == argv {
      assert Recovers(buf, args[j], params[0 + j]);
    }
  }

  lemma OneMoreRecovered(buf: string, a: ParamData, args: seq<ParamData>, params: seq<Param>, k: nat)
    requires k < |params| && Recovers(buf, a, params[k]) && AllRecovered(buf, args, params, k + 1)
    ensures AllRecovered(buf, [a] + args, params, k)
  {
    hide Recovers;
    forall j | 0 <= j < |args| + 1 ensures Recovers(buf, ([a] + args)[j], params[k + j]) {
      if j > 0 {
        assert Recovers(buf, args[j - 1], params[k + 1 + (j - 1)]);
      }
    }
  }

  lemma {:induction false} PlacesRecover(buf: string, i: nat, params: seq<Param>, k: nat)
    requires Laid(buf, i, params, k, NUL, NUL) && AllGood(params) && k <= |params|
    ensures AllRecovered(buf, Places(i, params, k), params, k)
    decreases |params| - k
  {
    if k < |params| {
      hide Good, Recovers, AllRecovered;
      var next := NextAt(i, params[k]);
      LaidStart(buf, next, params, k + 1);
      OneRecovers(buf, i, params[k]);
      PlacesRecover(buf, next, params, k + 1);
      OneMoreRecovered(buf, PlaceOf(i, params[k]), Places(next, params, k + 1), params, k);
    }
  }

  lemma {:induction false} WalkCommand(buf: string, command: string, k: nat)
    requires At(buf, 0, command) && ' ' !in command && NUL !in command && k <= |command|
    ensures Walk(buf, k, false, []) == Walk(buf, |command|, false, [])
    decreases |command| - k
  {
    if k < |command| {
      AtIndex(buf, 0, command);
      assert command[k] in command;
      WalkCommand(buf, command, k + 1);
    }
  }

  lemma PrintedBuffer(command: string, printed: string, behind: string)
    ensures var buf := command + printed + [NUL] + behind;
            At(buf, 0, command) && At(buf, |command|, printed + [NUL])
  {
    var buf := command + printed + [NUL] + behind;
    assert buf[..|command|] == command;
    assert buf[|command|..|command| + |printed| + 1] == printed + [NUL];
  }

  /** The space in front of the first parameter ends the command. */
  lemma FirstParam(buf: string, n: nat, params: seq<Param>, args: seq<ParamData>)
    requires params != [] && Laid(buf, n, params, 0, ' ', '=')
    ensures Walk(buf, n, false, args) == Walk(buf, n, true, args)
  {
  }

  lemma RoundTripParams(buf: string, command: string, params: seq<Param>)
    requires ' ' !in command && NUL !in command && AllGood(params)
    requires At(buf, 0, command) && Laid(buf, |command|, params, 0, ' ', '=') && params != []
    ensures var r := Walk(buf, |command|, false, []);
            && r.stop == AtEnd && r.cmd && CStr(r.buf, 0) == command
            && AllRecovered(r.buf, r.args, params, 0)
  {
    hide Walk, OneAt, Good, AllRecovered;
    var n := |command|;
    FirstParam(buf, n, params, []);
    WalkAll(buf, n, params, 0, []);
    var r := Walk(buf, n, true, []);
    assert r.args == Places(n, params, 0);
    PlacesRecover(r.buf, n, params, 0);
    AtAgree(buf, r.buf, 0, command);
    LaidStart(r.buf, n, params, 0);
    CStrWhole(r.buf, 0, command);
  }

  /** For every command and list of parameters: what was printed into the buffer
      comes back as terminated strings in it. */
  lemma {:induction false} RoundTrip(command: string, params: seq<Param>, behind: string)
    requires ' ' !in command && NUL !in command && AllGood(params)
    ensures var r := Parse(command + Printed(params, 0) + [NUL] + behind);
            && r.stop == AtEnd && r.cmd && CStr(r.buf, 0) == command
            && AllRecovered(r.buf, r.args, params, 0)
  {
    hide At, Good;
    var buf := command + Printed(params, 0) + [NUL] + behind;
    PrintedBuffer(command, Printed(params, 0), behind);
    PrintedLaid(buf, |command|, params, 0);
    WalkCommand(buf, command, 0);
    if params == [] {
      CStrWhole(buf, 0, command);
    } else {
      RoundTripParams(buf, command, params);
    }
  }
}
