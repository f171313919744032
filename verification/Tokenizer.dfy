/** `token_functions.hpp` and `token_iterator.hpp`: the escaped-list separator
    and the iterator that drives it over a text. */
module Tokenizers {
  import opened Basics

  datatype Error = CannotEndWithEscape | UnknownEscape

  datatype Result<+T> = Ok(value: T) | Err(error: Error)

  /** The special characters, a set of each kind. */
  datatype Special = Special(escape: string, c: string, quote: string)

  predicate IsSpecial(sp: Special, x: char) {
    x in sp.escape || x in sp.c || x in sp.quote
  }

  /** The character that an escape sequence ending in `x` stands for. */
  function Unescaped(sp: Special, x: char): Option<char> {
    if x == 'n' then Some('\n') else if IsSpecial(sp, x) then Some(x) else None
  }

  /** The rest of a token: where the next one begins, the text of this one, and
      whether it was ended by a separator. */
  datatype Token = Token(next: nat, tok: string, last: bool)

  function Scan(sp: Special, s: string, next: nat, inQuote: bool, tok: string): (r: Result<Token>)
    requires next <= |s|
    ensures r.Ok? ==> next <= r.value.next <= |s| && (next < |s| ==> next < r.value.next)
    decreases |s| - next
  {
    if next == |s| then Ok(Token(next, tok, false))
    else if s[next] in sp.escape then
      if next + 1 == |s| then Err(CannotEndWithEscape)
      else if Unescaped(sp, s[next + 1]).None? then Err(UnknownEscape)
      else Scan(sp, s, next + 2, inQuote, tok + [Unescaped(sp, s[next + 1]).value])
    else if s[next] in sp.c then
      if !inQuote then Ok(Token(next + 1, tok, true)) else Scan(sp, s, next + 1, inQuote, tok + [s[next]])
    else if s[next] in sp.quote then Scan(sp, s, next + 1, !inQuote, tok)
    else Scan(sp, s, next + 1, inQuote, tok + [s[next]])
  }

  /** All tokens from a position on; `last` says that a separator was just passed. */
  function Tokens(sp: Special, s: string, next: nat, last: bool): Result<seq<string>>
    requires next <= |s|
    decreases |s| - next
  {
    if next == |s| then Ok(if last then [""] else [])
    else
      match Scan(sp, s, next, false, "")
      case Err(e) => Err(e)
      case Ok(t) => Prefixed([t.tok], Tokens(sp, s, t.next, t.last))
  }

  function Prefixed(toks: seq<string>, r: Result<seq<string>>): Result<seq<string>> {
    match r
    case Err(e) => Err(e)
    case Ok(more) => Ok(toks + more)
  }

  lemma PrefixedTwice(a: seq<string>, b: seq<string>, r: Result<seq<string>>)
    ensures Prefixed(a, Prefixed(b, r)) == Prefixed(a + b, r)
  {
    if r.Ok? {
      assert a + (b + r.value) == a + b + r.value;
    }
  }

  lemma PrefixedNothing(toks: seq<string>, r: Result<seq<string>>)
    ensures Prefixed([], r) == r && Prefixed(toks, Ok([])) == Ok(toks)
  {
    if r.Ok? {
      assert [] + r.value == r.value;
    }
    assert toks + [] == toks;
  }

  class EscapedListSeparator {
    const escape: string
    const c: string
    const quote: string
    var last: bool

    constructor (e: string, c: string, q: string)
      ensures Chars() == Special(e, c, q) && !last
    {
      escape, this.c, quote, last := e, c, q, false;
    }

    function Chars(): Special {
      Special(escape, c, quote)
    }

    method Reset()
      modifies this
      ensures !last
    {
      last := false;
    }

    method DoEscape(next: nat, s: string, tok: string) returns (r: Result<(nat, string)>)
      requires next < |s|
      ensures r == (if next + 1 == |s| then Err(CannotEndWithEscape)
                    else if Unescaped(Chars(), s[next + 1]).None? then Err(UnknownEscape)
                    else Ok((next + 1, tok + [Unescaped(Chars(), s[next + 1]).value])))
      ensures r.Ok? <==> next + 1 < |s| && (s[next + 1] == 'n' || s[next + 1] in escape + c + quote)
      ensures r.Ok? ==> r.value == (next + 1, tok + [if s[next + 1] == 'n' then '\n' else s[next + 1]])
    {
      var n := next + 1;
      if n == |s| {
        return Err(CannotEndWithEscape);
      }
      if s[n] == 'n' {
        return Ok((n, tok + ['\n']));
      } else if s[n] in quote {
        return Ok((n, tok + [s[n]]));
      } else if s[n] in c {
        return Ok((n, tok + [s[n]]));
      } else if s[n] in escape {
        return Ok((n, tok + [s[n]]));
      } else {
        return Err(UnknownEscape);
      }
    }

    /** `operator()`: the next token, or none at the end of the text. */
    method Next(next: nat, s: string) returns (r: Result<Option<string>>, next': nat)
      requires next <= |s|
      modifies this
      ensures if next == |s| then
                r == Ok(if old(last) then Some("") else None) && next' == next && !last
              else
                match Scan(Chars(), s, next, false, "")
                case Err(e) => r == Err(e)
                case Ok(t) => r == Ok(Some(t.tok)) && next' == t.next && last == t.last
    {
      var inQuote, tok := false, "";
      next' := next;
      if next' == |s| {
        if last {
          last := false;
          return Ok(Some("")), next';
        } else {
          return Ok(None), next';
        }
      }
      last := false;
      while next' != |s|
        invariant next <= next' <= |s| && !last
        invariant Scan(Chars(), s, next', inQuote, tok) == Scan(Chars(), s, next, false, "")
        decreases |s| - next'
      {
        if s[next'] in escape {
          var e := DoEscape(next', s, tok);
          if e.Err? {
            return Err(e.error), next';
          }
          next', tok := e.value.0, e.value.1;
        } else if s[next'] in c {
          if !inQuote {
            last := true;
            return Ok(Some(tok)), next' + 1;
          } else {
            tok := tok + [s[next']];
          }
        } else if s[next'] in quote {
          inQuote := !inQuote;
        } else {
          tok := tok + [s[next']];
        }
        next' := next' + 1;
      }
      return Ok(Some(tok)), next';
    }
  }

  class TokenIterator {
    const f: EscapedListSeparator
    const text: string
    var begin: nat
    var valid: bool
    var tok: string

    ghost predicate Positioned() reads this {
      begin <= |text|
    }

    /** What is still to come, the current token included. */
    function Rest(): Result<seq<string>>
      requires Positioned()
      reads this, f
    {
      if valid then Prefixed([tok], Tokens(f.Chars(), text, begin, f.last)) else Ok([])
    }

    constructor (f: EscapedListSeparator, text: string)
      ensures this.f == f && this.text == text && begin == 0 && !valid
    {
      this.f, this.text, begin, valid, tok := f, text, 0, false, "";
    }

    method Increment() returns (error: Option<Error>)
      requires Positioned()
      modifies this, f
      ensures Positioned()
      ensures error.None? ==> Rest() == old(Tokens(f.Chars(), text, begin, f.last))
      ensures error.Some? ==> old(Tokens(f.Chars(), text, begin, f.last)) == Err(error.value)
      ensures error.None? ==>
                if old(begin) < |text| then begin > old(begin)
                else begin == |text| && !f.last && valid == old(f.last)
    {
      var r, n := f.Next(begin, text);
      match r
      case Err(e) =>
        return Some(e);
      case Ok(t) =>
        begin, valid := n, t.Some?;
        if t.Some? {
          tok := t.value;
        }
        assert [""] + [] == [""];
        return None;
    }

    method Initialize() returns (error: Option<Error>)
      requires Positioned() && !valid && begin == 0
      modifies this, f
      ensures Positioned()
      ensures error.None? ==> Rest() == Tokens(f.Chars(), text, 0, false)
      ensures error.Some? ==> Tokens(f.Chars(), text, 0, false) == Err(error.value)
    {
      f.Reset();
      if begin != |text| {
        error := Increment();
      } else {
        return None;
      }
    }
  }

  /** The iterator run to exhaustion: exactly the tokens of the text, or the
      error of the first malformed escape. */
  method Tokenize(e: string, c: string, q: string, text: string) returns (r: Result<seq<string>>)
    ensures r == Tokens(Special(e, c, q), text, 0, false)
  {
    var f := new EscapedListSeparator(e, c, q);
    var it := new TokenIterator(f, text);
    var toks: seq<string> := [];
    var error := it.Initialize();
    if error.Some? {
      return Err(error.value);
    }
    PrefixedNothing([], it.Rest());
    while it.valid
      invariant it.Positioned()
      invariant Prefixed(toks, it.Rest()) == Tokens(Special(e, c, q), text, 0, false)
      decreases |text| - it.begin, f.last, it.valid
    {
      PrefixedTwice(toks, [it.tok], Tokens(f.Chars(), text, it.begin, f.last));
      toks := toks + [it.tok];
      error := it.Increment();
      if error.Some? {
        return Err(error.value);
      }
    }
    PrefixedNothing(toks, Ok([]));
    return Ok(toks);
  }

  // ------------------------------------------------------------- which texts are refused

  /** The first fault of a text, reading every escape character together with
      the one behind it: the text ends there, or what follows has no meaning. */
  function Fault(sp: Special, s: string, i: nat): Option<Error>
    decreases |s| - i
  {
    if i >= |s| then None
    else if s[i] !in sp.escape then Fault(sp, s, i + 1)
    else if i + 1 == |s| then Some(CannotEndWithEscape)
    else if s[i + 1] != 'n' && s[i + 1] !in sp.escape && s[i + 1] !in sp.c && s[i + 1] !in sp.quote then
      Some(UnknownEscape)
    else Fault(sp, s, i + 2)
  }

  lemma {:induction false} ScanFault(sp: Special, s: string, i: nat, inQuote: bool, tok: string)
    requires i <= |s|
    ensures match Scan(sp, s, i, inQuote, tok)
            case Err(e) => Fault(sp, s, i) == Some(e)
            case Ok(t) => Fault(sp, s, t.next) == Fault(sp, s, i)
    decreases |s| - i
  {
    if i < |s| {
      if s[i] in sp.escape {
        if i + 1 < |s| && Unescaped(sp, s[i + 1]).Some? {
          ScanFault(sp, s, i + 2, inQuote, tok + [Unescaped(sp, s[i + 1]).value]);
        }
      } else if s[i] in sp.c {
        if inQuote {
          ScanFault(sp, s, i + 1, inQuote, tok + [s[i]]);
        }
      } else if s[i] in sp.quote {
        ScanFault(sp, s, i + 1, !inQuote, tok);
      } else {
        ScanFault(sp, s, i + 1, inQuote, tok + [s[i]]);
      }
    }
  }

  /** A text is refused exactly when it has a fault, with the error of its first;
      quotes and separators have no say in that. */
  lemma {:induction false} RefusedForFault(sp: Special, s: string, i: nat, last: bool)
    requires i <= |s|
    ensures match Fault(sp, s, i)
            case Some(e) => Tokens(sp, s, i, last) == Err(e)
            case None => Tokens(sp, s, i, last).Ok?
    decreases |s| - i
  {
    if i < |s| {
      ScanFault(sp, s, i, false, "");
      var t := Scan(sp, s, i, false, "");
      if t.Ok? {
        RefusedForFault(sp, s, t.value.next, t.value.last);
      }
    }
  }

  // ------------------------------------------------------------- what was printed is what is read

  /** A stretch of a field, to be printed inside quotes or not. With `raw`,
      newlines are left as they are, and separators inside quotes too. */
  datatype Piece = Piece(text: string, quoted: bool, raw: bool)

  type Field = seq<Piece>

  /** One character of each kind to print with. */
  predicate Marks(sp: Special, e: char, d: char, q: char) {
    && e in sp.escape
    && d in sp.c && d !in sp.escape
    && q in sp.quote && q !in sp.escape && q !in sp.c
  }

  /** Special characters are escaped, and newlines and separators where they are. */
  function Escaped(sp: Special, e: char, x: char, quoted: bool, raw: bool): string {
    if !IsSpecial(sp, x) && (raw || x != '\n') then [x]
    else if raw && quoted && x in sp.c && x !in sp.escape then [x]
    else [e, if x == '\n' then 'n' else x]
  }

  function EscapedFrom(sp: Special, e: char, p: Piece, k: nat): string
    decreases |p.text| - k
  {
    if k >= |p.text| then "" else Escaped(sp, e, p.text[k], p.quoted, p.raw) + EscapedFrom(sp, e, p, k + 1)
  }

  function PrintedPiece(sp: Special, e: char, q: char, p: Piece): string {
    if p.quoted then [q] + (EscapedFrom(sp, e, p, 0) + [q]) else EscapedFrom(sp, e, p, 0)
  }

  /** A field from its `m`-th piece on, printed and as it is meant. */
  function Printed(sp: Special, e: char, q: char, f: Field, m: nat): string
    decreases |f| - m
  {
    if m >= |f| then "" else PrintedPiece(sp, e, q, f[m]) + Printed(sp, e, q, f, m + 1)
  }

  function Text(f: Field, m: nat): string
    decreases |f| - m
  {
    if m >= |f| then "" else f[m].text + Text(f, m + 1)
  }

  /** The fields from the `k`-th on with separators between them. */
  function Joined(sp: Special, e: char, d: char, q: char, fields: seq<Field>, k: nat): string
    decreases |fields| - k
  {
    if k >= |fields| then ""
    else if k == |fields| - 1 then Printed(sp, e, q, fields[k], 0)
    else Printed(sp, e, q, fields[k], 0) + ([d] + Joined(sp, e, d, q, fields, k + 1))
  }

  function Texts(fields: seq<Field>, k: nat): seq<string>
    decreases |fields| - k
  {
    if k >= |fields| then [] else [Text(fields[k], 0)] + Texts(fields, k + 1)
  }

  lemma AtFirst(s: string, i: nat, x: char)
    requires At(s, i, [x])
    ensures s[i] == x
  {
    assert s[i..i + 1][0] == x;
  }

  lemma AtPair(s: string, i: nat, x: char, y: char)
    requires At(s, i, [x, y])
    ensures s[i] == x && s[i + 1] == y
  {
    assert s[i..i + 2][0] == x && s[i..i + 2][1] == y;
  }

  /** One printed character. */
  lemma ScanChar(sp: Special, e: char, s: string, i: nat, x: char, quoted: bool, raw: bool, tok: string)
    requires e in sp.escape && !IsSpecial(sp, 'n') && At(s, i, Escaped(sp, e, x, quoted, raw))
    ensures Scan(sp, s, i, quoted, tok) == Scan(sp, s, i + |Escaped(sp, e, x, quoted, raw)|, quoted, tok + [x])
  {
    if |Escaped(sp, e, x, quoted, raw)| == 1 {
      AtFirst(s, i, x);
    } else {
      var y := if x == '\n' then 'n' else x;
      AtPair(s, i, e, y);
      assert Unescaped(sp, y) == Some(x);
    }
  }

  lemma TakeMore(tok: string, text: string, k: nat)
    requires k < |text|
    ensures tok + text[..k] + [text[k]] == tok + text[..k + 1]
  {
  }

  lemma {:induction false} ScanText(sp: Special, e: char, s: string, i: nat, p: Piece, k: nat, tok: string)
    requires e in sp.escape && !IsSpecial(sp, 'n') && k <= |p.text| && At(s, i, EscapedFrom(sp, e, p, k))
    ensures Scan(sp, s, i, p.quoted, tok + p.text[..k])
         == Scan(sp, s, i + |EscapedFrom(sp, e, p, k)|, p.quoted, tok + p.text)
    decreases |p.text| - k
  {
    hide Scan, At;
    if k < |p.text| {
      var x := p.text[k];
      var piece := Escaped(sp, e, x, p.quoted, p.raw);
      AtSplit(s, i, piece, EscapedFrom(sp, e, p, k + 1));
      ScanChar(sp, e, s, i, x, p.quoted, p.raw, tok + p.text[..k]);
      TakeMore(tok, p.text, k);
      ScanText(sp, e, s, i + |piece|, p, k + 1, tok);
    } else {
      assert p.text[..k] == p.text;
    }
  }

  lemma ScanQuote(sp: Special, q: char, s: string, i: nat, inQuote: bool, tok: string)
    requires q in sp.quote && q !in sp.escape && q !in sp.c && At(s, i, [q])
    ensures Scan(sp, s, i, inQuote, tok) == Scan(sp, s, i + 1, !inQuote, tok)
  {
    AtFirst(s, i, q);
  }

  lemma ScanPiece(sp: Special, e: char, d: char, q: char, s: string, i: nat, p: Piece, tok: string)
    requires Marks(sp, e, d, q) && !IsSpecial(sp, 'n') && At(s, i, PrintedPiece(sp, e, q, p))
    ensures Scan(sp, s, i, false, tok) == Scan(sp, s, i + |PrintedPiece(sp, e, q, p)|, false, tok + p.text)
  {
    hide Scan, At;
    var body := EscapedFrom(sp, e, p, 0);
    assert tok + p.text[..0] == tok;
    if p.quoted {
      AtSplit(s, i, [q], body + [q]);
      AtSplit(s, i + 1, body, [q]);
      ScanQuote(sp, q, s, i, false, tok);
      ScanText(sp, e, s, i + 1, p, 0, tok);
      ScanQuote(sp, q, s, i + 1 + |body|, true, tok + p.text);
    } else {
      ScanText(sp, e, s, i, p, 0, tok);
    }
  }

  lemma Regroup(tok: string, a: string, b: string)
    ensures tok + a + b == tok + (a + b) && tok + "" == tok
  {
  }

  lemma {:induction false} ScanField(sp: Special, e: char, d: char, q: char, s: string, i: nat, f: Field, m: nat,
                                     tok: string)
    requires Marks(sp, e, d, q) && !IsSpecial(sp, 'n') && At(s, i, Printed(sp, e, q, f, m))
    ensures Scan(sp, s, i, false, tok) == Scan(sp, s, i + |Printed(sp, e, q, f, m)|, false, tok + Text(f, m))
    decreases |f| - m
  {
    hide Scan, At, PrintedPiece, Marks;
    if m < |f| {
      var piece := PrintedPiece(sp, e, q, f[m]);
      AtSplit(s, i, piece, Printed(sp, e, q, f, m + 1));
      ScanPiece(sp, e, d, q, s, i, f[m], tok);
      ScanField(sp, e, d, q, s, i + |piece|, f, m + 1, tok + f[m].text);
      Regroup(tok, f[m].text, Text(f, m + 1));
    } else {
      Regroup(tok, "", "");
    }
  }

  lemma ScanSeparator(sp: Special, d: char, s: string, i: nat, tok: string)
    requires d in sp.c && d !in sp.escape && At(s, i, [d])
    ensures Scan(sp, s, i, false, tok) == Ok(Token(i + 1, tok, true))
  {
    AtFirst(s, i, d);
  }

  lemma TokensNext(sp: Special, s: string, i: nat, last: bool, t: Token, more: seq<string>)
    requires i < |s| && Scan(sp, s, i, false, "") == Ok(t) && Tokens(sp, s, t.next, t.last) == Ok(more)
    ensures Tokens(sp, s, i, last) == Ok([t.tok] + more)
  {
  }

  /** The fields from the `k`-th on. Only an empty text on which no separator
      came before is not taken for a field. */
  lemma {:induction false} TokensFrom(sp: Special, e: char, d: char, q: char, s: string, i: nat,
                                      fields: seq<Field>, k: nat, last: bool)
    requires Marks(sp, e, d, q) && !IsSpecial(sp, 'n') && k < |fields|
    requires At(s, i, Joined(sp, e, d, q, fields, k)) && i + |Joined(sp, e, d, q, fields, k)| == |s|
    requires last || i < |s|
    ensures Tokens(sp, s, i, last) == Ok(Texts(fields, k))
    decreases |fields| - k
  {
    hide Scan, At, Printed, Text;
    var f := fields[k];
    var text, end := Text(f, 0), i + |Printed(sp, e, q, f, 0)|;
    Regroup("", text, "");
    assert "" + text == text;
    if k == |fields| - 1 {
      assert Texts(fields, k) == [text] + Texts(fields, k + 1) == [text];
      ScanField(sp, e, d, q, s, i, f, 0, "");
      LastField(sp, e, q, s, i, f, last);
    } else {
      var more := Joined(sp, e, d, q, fields, k + 1);
      AtSplit(s, i, Printed(sp, e, q, f, 0), [d] + more);
      AtSplit(s, end, [d], more);
      ScanField(sp, e, d, q, s, i, f, 0, "");
      ScanSeparator(sp, d, s, end, text);
      TokensFrom(sp, e, d, q, s, end + 1, fields, k + 1, true);
      TokensNext(sp, s, i, last, Token(end + 1, text, true), Texts(fields, k + 1));
    }
  }

  lemma LastField(sp: Special, e: char, q: char, s: string, i: nat, f: Field, last: bool)
    requires i + |Printed(sp, e, q, f, 0)| == |s| && (last || i < |s|)
    requires Scan(sp, s, i, false, "") == Scan(sp, s, |s|, false, Text(f, 0))
    ensures Tokens(sp, s, i, last) == Ok([Text(f, 0)])
  {
    if i < |s| {
      TokensNext(sp, s, i, last, Token(|s|, Text(f, 0), false), []);
      assert [Text(f, 0)] + [] == [Text(f, 0)];
    } else {
      EmptyPrint(sp, e, q, f, 0);
    }
  }

  /** Nothing in it and nothing quoted. */
  predicate Bare(f: Field, m: nat)
    decreases |f| - m
  {
    m < |f| ==> f[m].text == "" && !f[m].quoted && Bare(f, m + 1)
  }

  lemma {:induction false} EmptyPrint(sp: Special, e: char, q: char, f: Field, m: nat)
    ensures Printed(sp, e, q, f, m) == "" <==> Bare(f, m)
    ensures Bare(f, m) ==> Text(f, m) == ""
    decreases |f| - m
  {
    if m < |f| {
      EmptyPrint(sp, e, q, f, m + 1);
      assert PrintedPiece(sp, e, q, f[m]) == "" <==> f[m].text == "" && !f[m].quoted;
    }
  }

  /** For every list of fields, each of stretches in quotes or not, and all sets
      of special characters without the letter n: tokenizing what was printed
      returns the fields, except that a single field with nothing in it and
      nothing quoted returns none. */
  lemma {:induction false} RoundTrip(sp: Special, e: char, d: char, q: char, fields: seq<Field>)
    requires Marks(sp, e, d, q) && !IsSpecial(sp, 'n')
    ensures Tokens(sp, Joined(sp, e, d, q, fields, 0), 0, false) == Ok(Texts(fields, 0))
       <==> !(|fields| == 1 && Bare(fields[0], 0))
  {
    hide Printed, Text, Bare, Scan;
    var s := Joined(sp, e, d, q, fields, 0);
    if fields == [] {
    } else if |fields| == 1 {
      EmptyPrint(sp, e, q, fields[0], 0);
      if s != "" {
        TokensFrom(sp, e, d, q, s, 0, fields, 0, false);
      }
    } else {
      TokensFrom(sp, e, d, q, s, 0, fields, 0, false);
    }
  }

  /** Were n a special character, a field of just that letter would come back as
      a newline. */
  lemma {:induction false} LetterLost(sp: Special, e: char, d: char, q: char)
    requires Marks(sp, e, d, q) && IsSpecial(sp, 'n')
    ensures Texts([[Piece("n", false, false)]], 0) == ["n"]
    ensures Tokens(sp, Joined(sp, e, d, q, [[Piece("n", false, false)]], 0), 0, false) == Ok(["\n"])
  {
    var p := Piece("n", false, false);
    var s := [e, 'n'];
    assert EscapedFrom(sp, e, p, 1) == "" && EscapedFrom(sp, e, p, 0) == s;
    assert Printed(sp, e, q, [p], 0) == s + Printed(sp, e, q, [p], 1) == s;
    assert Text([p], 0) == "n" + Text([p], 1) == "n";
    assert Texts([[p]], 0) == [Text([p], 0)] + Texts([[p]], 1) == ["n"];
    assert Joined(sp, e, d, q, [[p]], 0) == s;
    assert "" + ['\n'] == "\n";
    assert Scan(sp, s, 0, false, "") == Scan(sp, s, 2, false, "\n") == Ok(Token(2, "\n", false));
    TokensNext(sp, s, 0, false, Token(2, "\n", false), []);
    assert ["\n"] + [] == ["\n"];
  }
}
