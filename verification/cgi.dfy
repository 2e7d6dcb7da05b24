/** cgi.c: the parameters of a form, decoded from a query or a request body. */
module Cgi {
  import opened CTypes
  import opened PacketBytes

  const MAX_NAME_SIZE := 63
  const MAX_VALUE_SIZE := 2097152

  const EOF: int := -1
  const AMP: int := 38
  const EQUALS: int := 61
  const PERCENT: int := 37
  const PLUS: int := 43

  /** A form parameter; `value` stands without its terminating NUL. */
  datatype Param = Param(name: seq<Byte>, value: seq<Byte>)

  // ---------------------------------------------------------------- reading characters

  predicate IsXDigit(c: int) { 48 <= c <= 57 || 65 <= c <= 70 || 97 <= c <= 102 }

  function XDigit(c: int): (d: nat)
    requires IsXDigit(c)
    ensures d < 16
  {
    if c <= 57 then c - 48 else if c <= 70 then c - 55 else c - 87
  }

  const CAPITALS := "0123456789ABCDEF"
  const SMALL := "0123456789abcdef"

  /** The sixteen digits, in capital and in small letters. */
  lemma HexDigits(k: nat)
    requires k < 16
    ensures IsXDigit(CAPITALS[k] as int) && XDigit(CAPITALS[k] as int) == k
    ensures IsXDigit(SMALL[k] as int) && XDigit(SMALL[k] as int) == k
  {
  }

  /** A character that was read, and the input behind it. */
  datatype Got = Got(c: int, rest: seq<int>)

  function First(s: seq<int>): Got { if s == [] then Got(EOF, []) else Got(s[0], s[1..]) }

  /** cgi_get_char: a bare '&' or '=' is negated, which no escape can yield. */
  function GetChar(s: seq<int>): (g: Got)
    ensures |g.rest| <= |s| && (g.c != EOF ==> |g.rest| < |s|)
  {
    var a := First(s);
    if a.c == AMP || a.c == EQUALS then Got(-a.c, a.rest)
    else if a.c == PLUS then Got(32, a.rest)
    else if a.c != PERCENT then a
    else
      var h := First(a.rest);
      if h.c == EOF || !IsXDigit(h.c) then Got(63, h.rest)
      else
        var l := First(h.rest);
        if l.c == EOF || !IsXDigit(l.c) then Got(63, l.rest)
        else Got(16 * XDigit(h.c) + XDigit(l.c), l.rest)
  }

  /** Where a name or a value ends. */
  predicate Stops(c: int, inName: bool) { c == EOF || c == -AMP || (inName && c == -EQUALS) }

  datatype Scanned = Scanned(taken: seq<Byte>, next: Got)

  /** What is read from the character `g.c` on, up to `limit` characters. */
  function Scan(g: Got, limit: nat, inName: bool): (r: Scanned)
    ensures |r.taken| <= limit && |r.next.rest| <= |g.rest|
    ensures Stops(r.next.c, inName) || |r.taken| == limit
    decreases limit
  {
    if limit == 0 || Stops(g.c, inName) then Scanned([], g)
    else
      var r := Scan(GetChar(g.rest), limit - 1, inName);
      Scanned([g.c % 256] + r.taken, r.next)
  }

  /** The scan of which `done` is read already. */
  function Resumed(done: seq<Byte>, g: Got, limit: nat, inName: bool): Scanned {
    var r := Scan(g, limit, inName);
    Scanned(done + r.taken, r.next)
  }

  lemma ResumeStep(done: seq<Byte>, g: Got, limit: nat, inName: bool)
    requires limit > 0 && !Stops(g.c, inName)
    ensures Resumed(done, g, limit, inName) == Resumed(done + [g.c % 256], GetChar(g.rest), limit - 1, inName)
  {
    hide GetChar;
    Assoc(done, [g.c % 256], Scan(GetChar(g.rest), limit - 1, inName).taken);
  }

  lemma ResumeStart(g: Got, limit: nat, inName: bool)
    ensures Resumed([], g, limit, inName) == Scan(g, limit, inName)
  {
    hide Scan;
    assert [] + Scan(g, limit, inName).taken == Scan(g, limit, inName).taken;
  }

  lemma ResumeEnd(done: seq<Byte>, g: Got, limit: nat, inName: bool)
    requires limit == 0 || Stops(g.c, inName)
    ensures Resumed(done, g, limit, inName) == Scanned(done, g)
  {
    assert done + [] == done;
  }

  // ---------------------------------------------------------------- the parameter list

  function Index(ps: seq<Param>, name: seq<Byte>): (i: nat)
    ensures i <= |ps| && (i < |ps| ==> ps[i].name == name)
    ensures forall k | 0 <= k < i :: ps[k].name != name
  {
    if ps == [] || ps[0].name == name then 0 else 1 + Index(ps[1..], name)
  }

  function AddParam(ps: seq<Param>, p: Param): seq<Param> {
    var i := Index(ps, p.name);
    if i < |ps| then ps[i := p] else ps + [p]
  }

  function AddAll(ps: seq<Param>, more: seq<Param>): seq<Param>
    decreases |more|
  {
    if more == [] then ps else AddAll(AddParam(ps, more[0]), more[1..])
  }

  function Lookup(ps: seq<Param>, name: seq<Byte>): Option<seq<Byte>> {
    var i := Index(ps, name);
    if i < |ps| then Some(ps[i].value) else None
  }

  // ---------------------------------------------------------------- do_cgi_read

  datatype Outcome = Outcome(ok: bool, params: seq<Param>)

  /** From the character g.c on; `value` is what the value buffer still holds from the last parameter. */
  function ReadAll(g: Got, value: seq<Byte>, ps: seq<Param>): Outcome
    decreases |g.rest| + if g.c == EOF then 0 else 1
  {
    if g.c == EOF then Outcome(true, ps)
    else
      var n := Scan(g, MAX_NAME_SIZE, true);
      if !Stops(n.next.c, true) then Outcome(false, ps)
      else
        var v := if n.next.c == -EQUALS then Scan(GetChar(n.next.rest), MAX_VALUE_SIZE, false)
                 else Scanned(value, n.next);
        if !Stops(v.next.c, false) then Outcome(false, ps)
        else
          var qs := AddParam(ps, Param(CStr<Byte>(n.taken, 0), CStr<Byte>(v.taken, 0)));
          ReadAll(if v.next.c == -AMP then GetChar(v.next.rest) else v.next, v.taken, qs)
  }

  // ---------------------------------------------------------------- escaped texts

  /** One encoded character: itself, '+' for a space, or '%' and two digits. */
  datatype Piece = Plain(c: int) | Space | Escape(high: int, low: int) {
    /** Section 2.1 of RFC 3986 and section 8.2.1 of RFC 1866. */
    predicate Ok() {
      match this
      case Plain(c) => 0 < c < 128 && c != AMP && c != EQUALS && c != PERCENT && c != PLUS
      case Space => true
      case Escape(h, l) => IsXDigit(h) && IsXDigit(l)
    }

    function Code(): (b: Byte)
      requires Ok()
    {
      match this
      case Plain(c) => c
      case Space => 32
      case Escape(h, l) => 16 * XDigit(h) + XDigit(l)
    }

    function Chars(): seq<int> {
      match this
      case Plain(c) => [c]
      case Space => [PLUS]
      case Escape(h, l) => [PERCENT, h, l]
    }
  }

  predicate AllOk(s: seq<Piece>) { forall k | 0 <= k < |s| :: s[k].Ok() }

  function Codes(s: seq<Piece>): (t: seq<Byte>)
    requires AllOk(s)
    ensures |t| == |s|
  {
    if s == [] then [] else [s[0].Code()] + Codes(s[1..])
  }

  function Chars(s: seq<Piece>): seq<int> {
    if s == [] then [] else s[0].Chars() + Chars(s[1..])
  }

  datatype Pair = Pair(name: seq<Piece>, value: seq<Piece>) {
    predicate Ok() {
      AllOk(name) && AllOk(value) && |name| <= MAX_NAME_SIZE && |value| <= MAX_VALUE_SIZE
    }

    /** What is kept of the pair: its name and its value up to the first NUL. */
    function Decoded(): (p: Param)
      requires Ok()
      ensures CutAtNul(Codes(name), p.name) && CutAtNul(Codes(value), p.value)
    {
      CutIs(Codes(name));
      CutIs(Codes(value));
      Param(CStr<Byte>(Codes(name), 0), CStr<Byte>(Codes(value), 0))
    }
  }

  predicate PairsOk(ps: seq<Pair>) { forall k | 0 <= k < |ps| :: ps[k].Ok() }

  function Decoded(ps: seq<Pair>): (r: seq<Param>)
    requires PairsOk(ps)
    ensures |r| == |ps| && forall k | 0 <= k < |ps| :: r[k] == ps[k].Decoded()
  {
    if ps == [] then [] else [ps[0].Decoded()] + Decoded(ps[1..])
  }

  /** n=v&n=v& ... */
  function FormText(ps: seq<Pair>): seq<int> {
    if ps == [] then []
    else Chars(ps[0].name) + ([EQUALS] + (Chars(ps[0].value) + if |ps| == 1 then [] else [AMP] + FormText(ps[1..])))
  }

  function HexDigit(d: nat, small: bool): int
    requires d < 16
  {
    (if small then SMALL[d] else CAPITALS[d]) as int
  }

  function EscapedByte(b: Byte, small: bool): Piece { Escape(HexDigit(b / 16, small), HexDigit(b % 16, small)) }

  lemma EscapedByteDecodes(b: Byte, small: bool)
    ensures EscapedByte(b, small).Ok() && EscapedByte(b, small).Code() == b
  {
    hide XDigit, IsXDigit;
    HexDigits(b / 16);
    HexDigits(b % 16);
  }

  /** The encoding that escapes every byte, with capital or small digits: two of the many that a text may have. */
  function Escaped(s: seq<Byte>, small: bool): (t: seq<Piece>)
    ensures |t| == |s|
  {
    seq(|s|, k requires 0 <= k < |s| => EscapedByte(s[k], small))
  }

  /** Every text can be encoded. */
  lemma {:induction false} EscapedDecodes(s: seq<Byte>, small: bool)
    ensures AllOk(Escaped(s, small)) && Codes(Escaped(s, small)) == s
  {
    hide EscapedByte, Piece.Ok, Piece.Code;
    if s == [] {
    } else {
      EscapedDecodes(s[1..], small);
      EscapedByteDecodes(s[0], small);
      assert Escaped(s, small) == [EscapedByte(s[0], small)] + Escaped(s[1..], small);
    }
  }

  // ---------------------------------------------------------------- round trip

  lemma GetPiece(p: Piece, tail: seq<int>)
    requires p.Ok()
    ensures GetChar(p.Chars() + tail) == Got(p.Code(), tail)
  {
    var s := p.Chars() + tail;
    match p
    case Plain(c) => assert s[1..] == tail;
    case Space => assert s[1..] == tail;
    case Escape(h, l) =>
      assert s[1..] == [h, l] + tail && ([h, l] + tail)[1..] == [l] + tail && ([l] + tail)[1..] == tail;
  }

  /** An encoded text is read whole, and the delimiter behind it is what is read next. */
  lemma {:induction false} ScanText(s: seq<Piece>, tail: seq<int>, limit: nat, inName: bool)
    requires AllOk(s) && |s| <= limit && Stops(GetChar(tail).c, inName)
    ensures Scan(GetChar(Chars(s) + tail), limit, inName) == Scanned(Codes(s), GetChar(tail))
    decreases |s|
  {
    hide GetChar, Piece.Chars, Piece.Code;
    if s == [] {
      assert Chars(s) + tail == tail;
    } else {
      Assoc(s[0].Chars(), Chars(s[1..]), tail);
      GetPiece(s[0], Chars(s[1..]) + tail);
      ScanText(s[1..], tail, limit - 1, inName);
    }
  }

  lemma EqualsStops(tail: seq<int>)
    ensures GetChar([EQUALS] + tail) == Got(-EQUALS, tail) && GetChar([AMP] + tail) == Got(-AMP, tail)
    ensures GetChar([]) == Got(EOF, [])
  {
    assert ([EQUALS] + tail)[1..] == tail && ([AMP] + tail)[1..] == tail;
  }

  lemma PieceStarts(name: seq<Piece>, tail: seq<int>)
    requires name != [] && AllOk(name)
    ensures GetChar(Chars(name) + tail).c >= 0
  {
    hide GetChar;
    Assoc(name[0].Chars(), Chars(name[1..]), tail);
    GetPiece(name[0], Chars(name[1..]) + tail);
  }

  lemma NameStarts(name: seq<Piece>, tail: seq<int>)
    requires AllOk(name)
    ensures GetChar(Chars(name) + ([EQUALS] + tail)).c != EOF
  {
    hide GetChar;
    EqualsStops(tail);
    if name == [] {
      assert Chars(name) + ([EQUALS] + tail) == [EQUALS] + tail;
    } else {
      PieceStarts(name, [EQUALS] + tail);
    }
  }

  /** One pair of the text: read whole, whatever stands behind its delimiter. */
  lemma ReadPair(p: Pair, tail: seq<int>, value: seq<Byte>, ps: seq<Param>)
    requires p.Ok() && (tail == [] || tail[0] == AMP)
    ensures ReadAll(GetChar(Chars(p.name) + ([EQUALS] + (Chars(p.value) + tail))), value, ps) ==
            ReadAll(if tail == [] then Got(EOF, []) else GetChar(tail[1..]), Codes(p.value), AddParam(ps, p.Decoded()))
  {
    hide GetChar, Scan, AddParam, Chars, CStr;
    var more := Chars(p.value) + tail;
    EqualsStops(more);
    if tail != [] { EqualsStops(tail[1..]); assert tail == [AMP] + tail[1..]; } else { EqualsStops([]); }
    NameStarts(p.name, more);
    ScanText(p.name, [EQUALS] + more, MAX_NAME_SIZE, true);
    ScanText(p.value, tail, MAX_VALUE_SIZE, false);
  }

  lemma {:induction false} ReadForm(pairs: seq<Pair>, value: seq<Byte>, ps: seq<Param>)
    requires PairsOk(pairs)
    ensures ReadAll(GetChar(FormText(pairs)), value, ps) == Outcome(true, AddAll(ps, Decoded(pairs)))
    decreases |pairs|
  {
    hide GetChar, AddParam, Codes, Chars;
    if pairs == [] {
      EqualsStops([]);
    } else {
      hide ReadAll;
      var p := pairs[0];
      var tail := if |pairs| == 1 then [] else [AMP] + FormText(pairs[1..]);
      ReadPair(p, tail, value, ps);
      var qs := AddParam(ps, p.Decoded());
      assert Decoded(pairs)[1..] == Decoded(pairs[1..]);
      if |pairs| == 1 {
        ReadEnd(Codes(p.value), qs);
      } else {
        assert tail[1..] == FormText(pairs[1..]);
        ReadForm(pairs[1..], Codes(p.value), qs);
      }
    }
  }

  lemma ReadEnd(value: seq<Byte>, ps: seq<Param>)
    ensures ReadAll(Got(EOF, []), value, ps) == Outcome(true, ps)
  {
  }

  // ---------------------------------------------------------------- what is too long, and names without a value

  /** More pieces than the limit: as many are taken, and the next one is no delimiter. */
  lemma {:induction false} ScanTooLong(s: seq<Piece>, tail: seq<int>, limit: nat, inName: bool)
    requires AllOk(s) && |s| > limit
    ensures var r := Scan(GetChar(Chars(s) + tail), limit, inName); !Stops(r.next.c, inName)
    decreases limit
  {
    hide GetChar, Piece.Chars;
    Assoc(s[0].Chars(), Chars(s[1..]), tail);
    GetPiece(s[0], Chars(s[1..]) + tail);
    if limit > 0 { ScanTooLong(s[1..], tail, limit - 1, inName); }
  }

  /** A name of more than 63 characters, or a value of more than 2097152, makes the whole form unreadable. */
  lemma TooLongIsRefused(p: Pair, tail: seq<int>, value: seq<Byte>, ps: seq<Param>)
    requires AllOk(p.name) && AllOk(p.value) && (tail == [] || tail[0] == AMP)
    requires |p.name| > 63 || |p.value| > 2097152
    ensures !ReadAll(GetChar(Chars(p.name) + ([EQUALS] + (Chars(p.value) + tail))), value, ps).ok
  {
    hide GetChar, Scan, AddParam, Chars, CStr;
    var more := Chars(p.value) + tail;
    EqualsStops(more);
    NameStarts(p.name, more);
    if |p.name| > 63 {
      ScanTooLong(p.name, [EQUALS] + more, 63, true);
    } else {
      ScanText(p.name, [EQUALS] + more, MAX_NAME_SIZE, true);
      ScanTooLong(p.value, tail, 2097152, false);
    }
  }

  /** A name without '=' is bound to the value of the pair in front of it, which the buffer still holds. */
  lemma BareNameKeepsValue(name: seq<Piece>, tail: seq<int>, value: seq<Byte>, ps: seq<Param>)
    requires name != [] && AllOk(name) && |name| <= 63 && (tail == [] || tail[0] == AMP)
    ensures ReadAll(GetChar(Chars(name) + tail), value, ps) ==
            ReadAll(if tail == [] then Got(EOF, []) else GetChar(tail[1..]), value,
                    AddParam(ps, Param(CStr<Byte>(Codes(name), 0), CStr<Byte>(value, 0))))
  {
    hide GetChar, Scan, AddParam, Chars, CStr;
    if tail != [] { EqualsStops(tail[1..]); assert tail == [AMP] + tail[1..]; } else { EqualsStops([]); }
    PieceStarts(name, tail);
    ScanText(name, tail, MAX_NAME_SIZE, true);
  }

  /** A bare '=' inside a value does not end it: its negated code is stored as the byte 195. */
  lemma EqualsInValue(rest: seq<int>, limit: nat)
    requires limit > 0
    ensures var r, more := Scan(Got(-61, rest), limit, false), Scan(GetChar(rest), limit - 1, false);
            r.taken == [195] + more.taken && r.next == more.next
  {
    hide GetChar;
  }

  // ---------------------------------------------------------------- what the list holds

  /** The value given last to a name. */
  function LastValue(given: seq<Param>, name: seq<Byte>): (v: Option<seq<Byte>>)
    ensures v.None? ==> forall k | 0 <= k < |given| :: given[k].name != name
    ensures v.Some? ==> exists k :: LastAt(given, name, k) && given[k].value == v.value
  {
    if given == [] then None
    else
      var n := |given| - 1;
      assert given[n].name == name ==> LastAt(given, name, n);
      var v := if given[n].name == name then Some(given[n].value) else LastValue(given[..n], name);
      assert given[n].name != name && v.Some? ==>
          exists k :: LastAt(given[..n], name, k) && LastAt(given, name, k) && given[k].value == v.value;
      v
  }

  predicate LastAt(given: seq<Param>, name: seq<Byte>, k: int) {
    0 <= k < |given| && given[k].name == name && forall j | k < j < |given| :: given[j].name != name
  }

  lemma IndexIs(ps: seq<Param>, name: seq<Byte>, i: nat)
    requires i <= |ps| && (i < |ps| ==> ps[i].name == name) && forall k | 0 <= k < i :: ps[k].name != name
    ensures Index(ps, name) == i
  {
  }

  lemma IndexAfterAdd(ps: seq<Param>, p: Param, name: seq<Byte>)
    ensures Index(AddParam(ps, p), name) == if name == p.name || Index(ps, name) < |ps| then Index(ps, name)
                                            else |AddParam(ps, p)|
  {
    hide Index;
    var qs, i := AddParam(ps, p), Index(ps, name);
    IndexIs(qs, name, if name == p.name || i < |ps| then i else |qs|);
  }

  lemma LookupAfterAdd(ps: seq<Param>, p: Param, name: seq<Byte>)
    ensures Lookup(AddParam(ps, p), name) == if name == p.name then Some(p.value) else Lookup(ps, name)
  {
    hide Index;
    IndexAfterAdd(ps, p, name);
  }

  lemma {:induction false} AddLast(ps: seq<Param>, more: seq<Param>, p: Param)
    ensures AddAll(ps, more + [p]) == AddParam(AddAll(ps, more), p)
    decreases |more|
  {
    hide AddParam;
    if more == [] {
      assert ([] + [p])[1..] == [];
      assert more + [p] == [p];
    } else {
      assert (more + [p])[1..] == more[1..] + [p];
      AddLast(AddParam(ps, more[0]), more[1..], p);
    }
  }

  /** Every name is bound to the value given to it last. */
  lemma {:induction false} LookupIsLast(given: seq<Param>, name: seq<Byte>)
    ensures Lookup(AddAll([], given), name) == LastValue(given, name)
  {
    if given == [] {
    } else {
      hide AddAll, AddParam, Lookup;
      var n := |given| - 1;
      assert given == given[..n] + [given[n]];
      AddLast([], given[..n], given[n]);
      LookupAfterAdd(AddAll([], given[..n]), given[n], name);
      LookupIsLast(given[..n], name);
    }
  }

  lemma {:induction false} GivenOrNot(given: seq<Param>, name: seq<Byte>)
    ensures LastValue(given, name).Some? <==> Index(given, name) < |given|
  {
    if given == [] {
    } else {
      hide Index;
      var n := |given| - 1;
      var i := Index(given[..n], name);
      GivenOrNot(given[..n], name);
      IndexIs(given, name, if i < n || given[n].name == name then i else n + 1);
    }
  }

  /** The names stand in the order in which they were first given, each once. */
  predicate InOrder(ps: seq<Param>, given: seq<Param>) {
    && (forall i | 0 <= i < |ps| :: Index(given, ps[i].name) < |given|)
    && (forall i, j | 0 <= i < j < |ps| :: Index(given, ps[i].name) < Index(given, ps[j].name))
  }

  predicate Named(ps: seq<Param>, name: seq<Byte>) { Index(ps, name) < |ps| }

  lemma OrderAfterAdd(ps: seq<Param>, given: seq<Param>, p: Param)
    requires InOrder(ps, given) && (Named(ps, p.name) <==> Named(given, p.name))
    ensures InOrder(AddParam(ps, p), given + [p])
  {
    hide Index;
    var qs := AddParam(ps, p);
    forall i | 0 <= i < |ps| ensures Index(given + [p], qs[i].name) == Index(given, ps[i].name) {
      IndexIs(given + [p], ps[i].name, Index(given, ps[i].name));
    }
    if |qs| > |ps| { IndexIs(given + [p], p.name, |given|); }
  }

  /** A name is in the list exactly when it was given. */
  lemma BoundOrNot(given: seq<Param>, name: seq<Byte>)
    ensures Named(AddAll([], given), name) <==> Named(given, name)
  {
    hide AddAll, Index, LastValue;
    LookupIsLast(given, name);
    GivenOrNot(given, name);
  }

  lemma {:induction false} FirstOrder(given: seq<Param>)
    ensures InOrder(AddAll([], given), given)
  {
    if given == [] {
    } else {
      hide AddAll, AddParam, Named, InOrder;
      var n := |given| - 1;
      FirstOrder(given[..n]);
      BoundOrNot(given[..n], given[n].name);
      OrderAfterAdd(AddAll([], given[..n]), given[..n], given[n]);
      AddLast([], given[..n], given[n]);
      assert given == given[..n] + [given[n]];
    }
  }

  /** A form, however it was escaped, is read as its pairs: every name once, in the order of first appearance,
      with the value that came last. */
  lemma RoundTrip(pairs: seq<Pair>)
    requires PairsOk(pairs)
    ensures var r := ReadAll(GetChar(FormText(pairs)), [], []);
            && r.ok && InOrder(r.params, Decoded(pairs))
            && forall name :: Lookup(r.params, name) == LastValue(Decoded(pairs), name)
  {
    ReadForm(pairs, [], []);
    FirstOrder(Decoded(pairs));
    forall name ensures Lookup(AddAll([], Decoded(pairs)), name) == LastValue(Decoded(pairs), name) {
      LookupIsLast(Decoded(pairs), name);
    }
  }

  // ---------------------------------------------------------------- the code

  /** What do_get_char will still return: the characters of QUERY_STRING, or those of the request body. */
  class Form {
    var input: seq<int>
    var nameBuf: seq<Byte>
    var valueBuf: seq<Byte>
    var params: seq<Param>

    constructor (chars: seq<int>)
      ensures input == chars && nameBuf == [] && valueBuf == [] && params == []
    {
      input, nameBuf, valueBuf, params := chars, [], [], [];
    }

    method DoGetChar() returns (c: int)
      modifies this`input
      ensures First(old(input)) == Got(c, input)
    {
      if input == [] { return EOF; }
      c := input[0];
      input := input[1..];
    }

    /** cgi_get_char */
    method CgiGetChar() returns (c: int)
      modifies this`input
      ensures GetChar(old(input)) == Got(c, input)
      ensures var s := old(input);
              && (s == [] ==> c == -1 && input == [])
              && (s != [] && s[0] == 38 ==> c == -38 && input == s[1..])
              && (s != [] && s[0] == 61 ==> c == -61 && input == s[1..])
              && (s != [] && s[0] == 43 ==> c == 32 && input == s[1..])
              && (s != [] && s[0] !in {37, 38, 43, 61} ==> c == s[0] && input == s[1..])
              && (|s| >= 3 && s[0] == 37 && IsXDigit(s[1]) && IsXDigit(s[2]) ==>
                    c == 16 * XDigit(s[1]) + XDigit(s[2]) && input == s[3..])
              && (s != [] && s[0] == 37 && (|s| == 1 || !IsXDigit(s[1])) ==>
                    c == 63 && input == if |s| == 1 then [] else s[2..])
              && (|s| >= 2 && s[0] == 37 && IsXDigit(s[1]) && (|s| == 2 || !IsXDigit(s[2])) ==>
                    c == 63 && input == if |s| == 2 then [] else s[3..])
    {
      c := DoGetChar();
      if c == AMP || c == EQUALS { return -c; }
      if c != PERCENT && c != PLUS { return c; }
      if c == PLUS { return 32; }
      c := DoGetChar();
      if c == EOF || !IsXDigit(c) { return 63; }
      var high := c;
      c := DoGetChar();
      if c == EOF || !IsXDigit(c) { return 63; }
      c := 16 * XDigit(high) + XDigit(c);
    }

    /** add_to_param_list */
    method AddToParamList(name: seq<Byte>, value: seq<Byte>)
      modifies this`params
      ensures params == AddParam(old(params), Param(name, value))
    {
      var i := 0;
      while i < |params|
        invariant 0 <= i <= |params| && forall k | 0 <= k < i :: params[k].name != name
      {
        if params[i].name == name { break; }
        i := i + 1;
      }
      IndexIs(params, name, i);
      params := if i < |params| then params[i := Param(name, value)] else params + [Param(name, value)];
    }

    /** The loop that reads a name. */
    method ReadName(first: int) returns (c: int)
      modifies this`input, this`nameBuf
      ensures Scan(Got(first, old(input)), MAX_NAME_SIZE, true) == Scanned(nameBuf, Got(c, input))
    {
      hide GetChar, Scan, Stops, Resumed;
      nameBuf := [];
      c := first;
      ResumeStart(Got(first, input), MAX_NAME_SIZE, true);
      while !Stops(c, true) && |nameBuf| < MAX_NAME_SIZE
        invariant |nameBuf| <= MAX_NAME_SIZE
        invariant Scan(Got(first, old(input)), MAX_NAME_SIZE, true) ==
                  Resumed(nameBuf, Got(c, input), MAX_NAME_SIZE - |nameBuf|, true)
        decreases MAX_NAME_SIZE - |nameBuf|
      {
        ResumeStep(nameBuf, Got(c, input), MAX_NAME_SIZE - |nameBuf|, true);
        nameBuf := nameBuf + [c % 256];
        c := CgiGetChar();
      }
      ResumeEnd(nameBuf, Got(c, input), MAX_NAME_SIZE - |nameBuf|, true);
    }

    /** The loop that reads a value. */
    method ReadValue(first: int) returns (c: int)
      modifies this`input, this`valueBuf
      ensures Scan(Got(first, old(input)), MAX_VALUE_SIZE, false) == Scanned(valueBuf, Got(c, input))
    {
      hide GetChar, Scan, Stops, Resumed;
      valueBuf := [];
      c := first;
      ResumeStart(Got(first, input), MAX_VALUE_SIZE, false);
      while !Stops(c, false) && |valueBuf| < MAX_VALUE_SIZE
        invariant |valueBuf| <= MAX_VALUE_SIZE
        invariant Scan(Got(first, old(input)), MAX_VALUE_SIZE, false) ==
                  Resumed(valueBuf, Got(c, input), MAX_VALUE_SIZE - |valueBuf|, false)
        decreases MAX_VALUE_SIZE - |valueBuf|
      {
        ResumeStep(valueBuf, Got(c, input), MAX_VALUE_SIZE - |valueBuf|, false);
        valueBuf := valueBuf + [c % 256];
        c := CgiGetChar();
      }
      ResumeEnd(valueBuf, Got(c, input), MAX_VALUE_SIZE - |valueBuf|, false);
    }

    /** do_cgi_read */
    method DoCgiRead() returns (r: int)
      modifies this
      ensures r == 0 || r == -1
      ensures ReadAll(GetChar(old(input)), old(valueBuf), old(params)) == Outcome(r == 0, params)
    {
      hide GetChar, Scan, CStr, AddParam;
      var c := CgiGetChar();
      while c != EOF
        invariant ReadAll(Got(c, input), valueBuf, params) ==
                  ReadAll(GetChar(old(input)), old(valueBuf), old(params))
        decreases |input| + if c == EOF then 0 else 1
      {
        c := ReadName(c);
        if |nameBuf| + 1 >= MAX_NAME_SIZE && !Stops(c, true) { return -1; }
        if c == -EQUALS {
          c := CgiGetChar();
          c := ReadValue(c);
          if |valueBuf| + 1 >= MAX_VALUE_SIZE && !Stops(c, false) { return -1; }
        }
        AddToParamList(CStr<Byte>(nameBuf, 0), CStr<Byte>(valueBuf, 0));
        if c == -AMP { c := CgiGetChar(); }
      }
      return 0;
    }

    /** cgi_param */
    method CgiParam(name: seq<Byte>) returns (value: Option<seq<Byte>>)
      ensures value == Lookup(params, name)
    {
      var i := 0;
      while i < |params|
        invariant 0 <= i <= |params| && forall k | 0 <= k < i :: params[k].name != name
      {
        if params[i].name == name {
          IndexIs(params, name, i);
          return Some(params[i].value);
        }
        i := i + 1;
      }
      IndexIs(params, name, i);
      return None;
    }
  }

  /** Reading a form and asking for a parameter gives the value that came last under that name. */
  method ReadAndAsk(pairs: seq<Pair>, name: seq<Byte>) returns (value: Option<seq<Byte>>)
    requires PairsOk(pairs)
    ensures value == LastValue(Decoded(pairs), name)
  {
    hide ReadAll, GetChar, AddAll, Lookup, LastValue, FormText;
    var form := new Form(FormText(pairs));
    var _ := form.DoCgiRead();
    RoundTrip(pairs);
    value := form.CgiParam(name);
  }
}
