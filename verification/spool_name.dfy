/** compile-control.c: packet names in a spool directory, written in base 32 with a priority in front. */
module SpoolName {
  import opened CTypes

  const EJ_SERVE_PACKET_NAME_SIZE := 13

  /** b32_digits[d] */
  function Char(d: bv8): bv8
    requires d < 32
  {
    if d < 10 then 48 + d else 55 + d
  }

  predicate IsDigitChar(c: bv8) { 48 <= c <= 57 || 65 <= c <= 86 }

  /** The digits are 0 to 9 and A to V, in the order of ASCII. */
  lemma CharsInOrder(c: bv8, d: bv8)
    requires c < d < 32
    ensures IsDigitChar(Char(c)) && IsDigitChar(Char(d)) && Char(c) < Char(d)
  {
  }

  function Digit(c: bv8): bv8 { if c < 65 then c - 48 else c - 55 }

  /** num >>= 5, num & 0x1f, and their inverse. */
  function High(x: bv64): bv64 { x >> 5 }

  function Low(x: bv64): bv8 { (x & 0x1f) as bv8 }

  function Push(v: bv64, d: bv8): bv64 { (v << 5) | d as bv64 }

  predicate Below(x: bv64, y: bv64) { x < y }

  /** num < 32^n */
  predicate Fits(num: bv64, n: nat) {
    if n == 0 then num == 0 else Fits(High(num), n - 1)
  }

  /** The n low base-32 digits of num, as characters. */
  function Digits(num: bv64, n: nat): (s: seq<bv8>)
    ensures |s| == n
  {
    JoinDigits(num);
    if n == 0 then [] else Digits(High(num), n - 1) + [Char(Low(num))]
  }

  /** The number that a string of digits stands for. */
  function Value(s: seq<bv8>): bv64 {
    if s == [] then 0 else Push(Value(s[..|s| - 1]), Digit(s[|s| - 1]))
  }

  /** strcmp(a, b) < 0, bytes compared as unsigned. */
  predicate Less(a: seq<bv8>, b: seq<bv8>) {
    if a == [] || b == [] then a == [] && b != []
    else if a[0] != b[0] then a[0] < b[0]
    else Less(a[1..], b[1..])
  }

  // ---------------------------------------------------------------- digits

  lemma CharOrder(c: bv8, d: bv8)
    requires c < 32 && d < 32
    ensures Char(c) < Char(d) <==> c < d
    ensures Digit(Char(c)) == c && (Char(c) == Char(d) ==> c == d)
  {
  }

  lemma JoinDigits(x: bv64)
    ensures Push(High(x), Low(x)) == x && Low(x) < 32
  {
  }

  lemma OrderByHigh(x: bv64, y: bv64)
    requires Below(High(x), High(y))
    ensures Below(x, y)
  {
  }

  lemma OrderByLow(x: bv64, y: bv64)
    requires High(x) == High(y) && Low(x) < Low(y)
    ensures Below(x, y)
  {
    assert x & 0x1f < y & 0x1f;
  }

  lemma Asymmetric(x: bv64, y: bv64)
    ensures !(Below(x, y) && Below(y, x)) && !Below(x, x)
  {
  }

  lemma {:induction false} ZeroDigits(n: nat)
    ensures Digits(0, n) == seq(n, _ => 48 as bv8)
  {
    if n == 0 {
    } else {
      ZeroDigits(n - 1);
    }
  }

  lemma {:induction false} ValueOfDigits(num: bv64, n: nat)
    requires Fits(num, n)
    ensures Value(Digits(num, n)) == num
  {
    if n == 0 {
    } else {
      hide High, Low, Push, Char, Digit;
      ValueOfDigits(High(num), n - 1);
      JoinDigits(num);
      CharOrder(Low(num), 0);
      assert Digits(num, n)[..n - 1] == Digits(High(num), n - 1);
    }
  }

  /** Appending one byte to strings of equal length. */
  lemma {:induction false} LessAtEnd(a: seq<bv8>, b: seq<bv8>, c: bv8, d: bv8)
    requires |a| == |b|
    ensures Less(a + [c], b + [d]) <==> Less(a, b) || (a == b && c < d)
  {
    if a != [] {
      assert (a + [c])[1..] == a[1..] + [c] && (b + [d])[1..] == b[1..] + [d];
      assert a == [a[0]] + a[1..] && b == [b[0]] + b[1..];
      LessAtEnd(a[1..], b[1..], c, d);
    } else {
      assert [c][1..] == [] && [d][1..] == [];
    }
  }

  lemma {:induction false} LessIsTotal(a: seq<bv8>, b: seq<bv8>)
    requires |a| == |b|
    ensures Less(a, b) || a == b || Less(b, a)
  {
    if a == [] {
    } else {
      assert a == [a[0]] + a[1..] && b == [b[0]] + b[1..];
      LessIsTotal(a[1..], b[1..]);
    }
  }

  /** The last digits, when the strings in front of them are equal or not. */
  lemma LastDigits(x: bv64, y: bv64, n: nat)
    requires n > 0 && Fits(x, n) && Fits(y, n) && Less(Digits(x, n), Digits(y, n))
    ensures Less(Digits(High(x), n - 1), Digits(High(y), n - 1)) || (High(x) == High(y) && Low(x) < Low(y))
  {
    ValueOfDigits(High(x), n - 1);
    ValueOfDigits(High(y), n - 1);
    JoinDigits(x);
    JoinDigits(y);
    CharOrder(Low(x), Low(y));
    hide High, Low, Push, Char, Digit, Less, Value, Fits;
    LessAtEnd(Digits(High(x), n - 1), Digits(High(y), n - 1), Char(Low(x)), Char(Low(y)));
  }

  lemma {:induction false} SmallerDigits(x: bv64, y: bv64, n: nat)
    requires Fits(x, n) && Fits(y, n) && Less(Digits(x, n), Digits(y, n))
    ensures Below(x, y)
  {
    if n == 0 {
    } else {
      LastDigits(x, y, n);
      assert Fits(High(x), n - 1) && Fits(High(y), n - 1);
      hide *;
      if Less(Digits(High(x), n - 1), Digits(High(y), n - 1)) {
        SmallerDigits(High(x), High(y), n - 1);
        OrderByHigh(x, y);
      } else {
        OrderByLow(x, y);
      }
    }
  }

  /** Fixed-length digit strings are ordered as their numbers are. */
  lemma DigitsOrder(x: bv64, y: bv64, n: nat)
    requires Fits(x, n) && Fits(y, n)
    ensures Less(Digits(x, n), Digits(y, n)) <==> Below(x, y)
  {
    hide *;
    ValueOfDigits(x, n);
    ValueOfDigits(y, n);
    LessIsTotal(Digits(x, n), Digits(y, n));
    Asymmetric(x, y);
    if Less(Digits(x, n), Digits(y, n)) { SmallerDigits(x, y, n); }
    if Less(Digits(y, n), Digits(x, n)) { SmallerDigits(y, x, n); }
  }

  // ---------------------------------------------------------------- the packed number

  /** run_id, pid and the time, packed into 15, 15 and 25 bits; signed values are given in two's complement. */
  function Packed(runId: bv64, pid: bv64, sec: bv64, usec: bv64): bv64 {
    ((pid & 0x7fff) << 25) | ((runId & 0x7fff) << 40) | ((sec ^ usec) & 0x1ff_ffff)
  }

  /** The fields do not overlap, and the whole is below 32^11. */
  lemma PackedFields(runId: bv64, pid: bv64, sec: bv64, usec: bv64)
    ensures var n := Packed(runId, pid, sec, usec);
            && n >> 40 == runId & 0x7fff
            && (n >> 25) & 0x7fff == pid & 0x7fff
            && n & 0x1ff_ffff == (sec ^ usec) & 0x1ff_ffff
            && n < 0x80_0000_0000_0000
  {
  }

  /** A shift by five takes one base-32 digit off. */
  lemma ElevenDigits(n: bv64)
    requires n < 0x80_0000_0000_0000
    ensures Fits(n, 11) && Fits(n, 12)
  {
    hide High;
    var a, b, c, d, e, f, g, h, i, j, k := Shifts(n);
    assert Fits(k, 0) && Fits(k, 1) && Fits(j, 1) && Fits(j, 2) && Fits(i, 2) && Fits(i, 3);
    assert Fits(h, 3) && Fits(h, 4) && Fits(g, 4) && Fits(g, 5) && Fits(f, 5) && Fits(f, 6);
    assert Fits(e, 6) && Fits(e, 7) && Fits(d, 7) && Fits(d, 8) && Fits(c, 8) && Fits(c, 9);
    assert Fits(b, 9) && Fits(b, 10) && Fits(a, 10) && Fits(a, 11);
  }

  /** The eleven shifts that use up such a number. */
  lemma Shifts(n: bv64) returns (a: bv64, b: bv64, c: bv64, d: bv64, e: bv64, f: bv64, g: bv64, h: bv64,
                                 i: bv64, j: bv64, k: bv64)
    requires n < 0x80_0000_0000_0000
    ensures a == High(n) && b == High(a) && c == High(b) && d == High(c) && e == High(d) && f == High(e)
    ensures g == High(f) && h == High(g) && i == High(h) && j == High(i) && k == High(j) && k == 0 && High(k) == 0
  {
    a, b, c, d, e, f := n >> 5, n >> 10, n >> 15, n >> 20, n >> 25, n >> 30;
    g, h, i, j, k := n >> 35, n >> 40, n >> 45, n >> 50, n >> 55;
  }

  // ---------------------------------------------------------------- names

  function Clamp(prio: int): (p: int)
    ensures -16 <= p <= 15 && (-16 <= prio <= 15 ==> p == prio)
    ensures prio < -16 ==> p == -16
    ensures prio > 15 ==> p == 15
  {
    if prio < -16 then -16 else if prio > 15 then 15 else prio
  }

  /** The digit of a priority, 0 to 31. */
  function PriorityDigit(prio: int): (d: bv8)
    ensures d as int == Clamp(prio) + 16 && d < 32
  {
    hide DigitOf;
    DigitOf(Clamp(prio) + 16)
  }

  lemma ByteOrder(c: bv8, d: bv8)
    requires c < 32 && d < 32
    ensures c < d <==> c as int < d as int
    ensures c == d <==> c as int == d as int
  {
  }

  /** The name: a priority character, then eleven digits. */
  function Name(prio: int, num: bv64): seq<bv8> {
    [Char(PriorityDigit(prio))] + Digits(num, 11)
  }

  /** A name gives back its priority and its number. */
  lemma NameDecodes(prio: int, num: bv64)
    requires num < 0x80_0000_0000_0000
    ensures Digit(Name(prio, num)[0]) as int - 16 == Clamp(prio)
    ensures Value(Name(prio, num)[1..]) == num
  {
    hide High, Low, Push, Char, Digit;
    CharOrder(PriorityDigit(prio), 0);
    ElevenDigits(num);
    ValueOfDigits(num, 11);
    assert Name(prio, num)[1..] == Digits(num, 11);
  }

  /** Every name that the code builds gives back the clamped priority, 15 bits of the run id, 15 bits of the
      process id and 25 bits of the time. */
  lemma NameFields(prio: int, runId: bv64, pid: bv64, sec: bv64, usec: bv64)
    ensures var name := Name(prio, Packed(runId, pid, sec, usec));
            && Digit(name[0]) as int - 16 == Clamp(prio)
            && Value(name[1..]) >> 40 == runId & 0x7fff
            && (Value(name[1..]) >> 25) & 0x7fff == pid & 0x7fff
            && Value(name[1..]) & 0x1ff_ffff == (sec ^ usec) & 0x1ff_ffff
  {
    hide *;
    PackedFields(runId, pid, sec, usec);
    NameDecodes(prio, Packed(runId, pid, sec, usec));
  }

  /** Names sort by priority first and by number second. */
  lemma NameOrder(p: int, x: bv64, q: int, y: bv64)
    requires x < 0x80_0000_0000_0000 && y < 0x80_0000_0000_0000
    ensures Less(Name(p, x), Name(q, y)) <==> Clamp(p) < Clamp(q) || (Clamp(p) == Clamp(q) && x < y)
  {
    hide High, Low, Push, Char, Digit, Clamp, PriorityDigit;
    var c, d := PriorityDigit(p), PriorityDigit(q);
    ByteOrder(c, d);
    CharOrder(c, d);
    ElevenDigits(x);
    ElevenDigits(y);
    DigitsOrder(x, y, 11);
    assert Name(p, x)[1..] == Digits(x, 11) && Name(q, y)[1..] == Digits(y, 11);
  }

  // ---------------------------------------------------------------- the code

  /** Twelve characters of which the last 11 - i are digits already, the number left being `rest`. */
  ghost predicate Half(num: bv64, rest: bv64, s: seq<bv8>, i: int)
    requires -1 <= i < 12 == |s|
  {
    && Fits(rest, i + 1)
    && (forall k | 0 <= k <= i :: s[k] == 48)
    && Digits(num, 12) == Digits(rest, i + 1) + s[i + 1..]
  }

  lemma HalfStep(num: bv64, rest: bv64, s: seq<bv8>, i: nat)
    requires i < 12 == |s| && Half(num, rest, s, i) && Low(rest) < 32
    ensures Half(num, High(rest), s[i := Char(Low(rest))], i - 1)
  {
    hide High, Low, Char;
    var t := s[i := Char(Low(rest))];
    assert t[i..] == [Char(Low(rest))] + s[i + 1..];
  }

  lemma HalfDone(num: bv64, s: seq<bv8>, i: int)
    requires -1 <= i < 12 == |s| && Half(num, 0, s, i)
    ensures s == Digits(num, 12)
  {
    ZeroDigits(i + 1);
  }

  /** b32_number; its assertion demands a number of at most twelve digits. */
  method B32Number(num: bv64, buf: array<bv8>)
    requires buf.Length >= EJ_SERVE_PACKET_NAME_SIZE && Fits(num, 12)
    modifies buf
    ensures buf[..12] == Digits(num, 12) && buf[12] == 0
    ensures buf[13..] == old(buf[13..])
  {
    forall k | 0 <= k < 12 { buf[k] := 48; }
    buf[12] := 0;
    var rest, i := num, 11;
    while rest > 0 && i >= 0
      invariant -1 <= i <= 11 && Half(num, rest, buf[..12], i)
      invariant buf[12] == 0 && forall k | 13 <= k < buf.Length :: buf[k] == old(buf[k])
      decreases i
    {
      hide Half, High, Low, Char;
      JoinDigits(rest);
      HalfStep(num, rest, buf[..12], i);
      ghost var before := buf[..12];
      buf[i] := Char(Low(rest));
      assert buf[..12] == before[i := Char(Low(rest))];
      i := i - 1;
      rest := High(rest);
    }
    assert rest == 0;
    HalfDone(num, buf[..12], i);
  }

  /** The number that serve_packet_name builds, with the process id and the time of day as arguments. */
  method PacketNumber(runId: bv64, pid: bv64, sec: bv64, usec: bv64) returns (num: bv64)
    ensures num == Packed(runId, pid, sec, usec) && num < 0x80_0000_0000_0000
  {
    num := (pid & 0x7fff) << 25;
    num := num | ((runId & 0x7fff) << 40);
    num := num | ((sec ^ usec) & 0x1ff_ffff);
    PackedFields(runId, pid, sec, usec);
  }

  /** serve_packet_name. The priority character replaces a digit that is always zero. */
  method ServePacketName(runId: bv64, prio: int, pid: bv64, sec: bv64, usec: bv64, buf: array<bv8>)
    requires buf.Length >= EJ_SERVE_PACKET_NAME_SIZE
    modifies buf
    ensures buf[..12] == Name(prio, Packed(runId, pid, sec, usec)) && buf[12] == 0
  {
    hide Packed, High, Low, Char, Digits, Fits;
    var num := PacketNumber(runId, pid, sec, usec);
    ElevenDigits(num);
    B32Number(num, buf);
    ZeroInFront(num, 11);
    assert buf[..12] == [48] + Digits(num, 11);
    var p := if prio < -16 then -16 else prio;
    p := if p > 15 then 15 else p;
    buf[0] := Char(PriorityDigit(p));
    assert buf[..12] == [Char(PriorityDigit(prio))] + Digits(num, 11);
  }

  /** The first of n + 1 digits is zero when n digits are enough. */
  lemma {:induction false} ZeroInFront(num: bv64, n: nat)
    requires Fits(num, n)
    ensures Digits(num, n + 1) == [48] + Digits(num, n)
  {
    if n > 0 {
      ZeroInFront(High(num), n - 1);
    } else {
      ZeroDigits(1);
    }
  }
}
