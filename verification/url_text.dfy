/** The text form of a set of integers, as bitset.c writes and reads it, on values.

    A text is a sequence of groups. A group is the number of digits of its first member, that number
    in base 64, and then either '0' (the group is that one member) or the length of a bitmap, written
    like the start, and the bitmap itself, six members to a character. */
module UrlText {
  import opened CTypes

  const ENCODE_BASE: int := 64
  const MAX_VALUE: int := 1_000_000_000
  /** The decoder refuses another digit once the number read so far has reached this value. */
  const DIGIT_LIMIT: nat := MAX_VALUE / ENCODE_BASE - 1

  lemma SliceOfConcat<T>(a: seq<T>, b: seq<T>, i: nat, j: nat)
    requires i <= j <= |a|
    ensures (a + b)[i..j] == a[i..j]
  {
  }

  // ---------------------------------------------------------------- digits

  /** base64_encode_table of bitset.c: 0-9, A-Z, a-z, '-', '_'. */
  function EncodeDigit(d: bv8): (c: bv8)
    requires d < 64
    ensures c != 0
  {
    if d < 10 then d + 48
    else if d < 36 then d + 55
    else if d < 62 then d + 61
    else if d == 62 then 45
    else 95
  }

  /** base64_decode_table of bitset.c; None stands for the table's -1. */
  function DecodeDigit(c: bv8): (d: Option<bv8>)
    ensures d.Some? ==> d.value < 64
  {
    if 48 <= c <= 57 then Some(c - 48)
    else if 65 <= c <= 90 then Some(c - 55)
    else if 97 <= c <= 122 then Some(c - 61)
    else if c == 45 then Some(62)
    else if c == 95 then Some(63)
    else None
  }

  lemma DecodeEncodeDigit(d: bv8)
    requires d < 64
    ensures DecodeDigit(EncodeDigit(d)) == Some(d)
  {
  }

  predicate IsAlnum(c: bv8) { 48 <= c <= 57 || 65 <= c <= 90 || 97 <= c <= 122 }

  /** The first 62 digits are the decimal digits and the letters in the order of ASCII, then come '-' and '_'. */
  lemma DigitOrder(d: bv8, e: bv8)
    requires d < e < 64
    ensures e < 62 ==> IsAlnum(EncodeDigit(d)) && IsAlnum(EncodeDigit(e)) && EncodeDigit(d) < EncodeDigit(e)
    ensures EncodeDigit(62) == 45 && EncodeDigit(63) == 95
  {
  }

  lemma EncodeDecodeDigit(c: bv8)
    requires DecodeDigit(c).Some?
    ensures EncodeDigit(DecodeDigit(c).value) == c
  {
  }

  predicate IsDecimal(c: bv8) { 48 <= c <= 57 }

  function DecimalValue(c: bv8): (v: nat)
    requires IsDecimal(c)
    ensures v <= 9
  {
    (c - 48) as nat
  }

  /** The base-64 digits of a number, most significant first. */
  function NumText(v: nat): (t: seq<bv8>)
    ensures |t| >= 1
    ensures 0 !in t
  {
    if v < 64 then [EncodeDigit(DigitOf(v))] else NumText(v / 64) + [EncodeDigit(DigitOf(v % 64))]
  }

  /** v / 64 / 64 ..., k times */
  function Shifted(v: nat, k: nat): nat { if k == 0 then v else Shifted(v / 64, k - 1) }

  function LastDigitOf(v: nat): bv8 { EncodeDigit(DigitOf(v % 64)) }

  lemma NumTextEnd(v: nat)
    ensures NumText(v) == (if v < 64 then [] else NumText(v / 64)) + [LastDigitOf(v)]
  {
    hide DigitOf, EncodeDigit;
    if v < 64 { assert v % 64 == v; }
  }

  /** The digits in the order of their weights: the one with weight 64^k stands k places before the end, and the
      first one is not zero unless it is the only one. */
  lemma {:induction false} NumTextDigit(v: nat, k: nat)
    ensures k < |NumText(v)| <==> k == 0 || Shifted(v, k) > 0
    ensures k < |NumText(v)| ==> NumText(v)[|NumText(v)| - 1 - k] == LastDigitOf(Shifted(v, k))
  {
    hide NumText, LastDigitOf;
    NumTextEnd(v);
    if k == 0 {
    } else if v < 64 {
      ShiftedZero(k - 1);
    } else {
      NumTextDigit(v / 64, k - 1);
    }
  }

  lemma {:induction false} ShiftedZero(k: nat)
    ensures Shifted(0, k) == 0
  {
    if k == 0 {
    } else {
      ShiftedZero(k - 1);
    }
  }

  // ---------------------------------------------------------------- groups

  datatype Group = Single(start: nat) | Packed(start: nat, digits: seq<bv8>)

  /** Does the group hold x? */
  predicate Member(g: Group, x: nat) {
    match g
    case Single(start) => x == start
    case Packed(start, ds) =>
      start <= x < start + 6 * |ds| && Bit(ds[(x - start) / 6], (x - start) % 6)
  }

  predicate InGroups(gs: seq<Group>, x: nat) {
    gs != [] && (Member(gs[0], x) || InGroups(gs[1..], x))
  }

  predicate AllSextets(ds: seq<bv8>) {
    forall k | 0 <= k < |ds| :: ds[k] < 64
  }

  predicate WellFormed(g: Group) {
    g.Packed? ==> g.digits != [] && AllSextets(g.digits)
  }

  function Chars(ds: seq<bv8>): (t: seq<bv8>)
    requires AllSextets(ds)
    ensures |t| == |ds|
    ensures 0 !in t
  {
    seq(|ds|, k requires 0 <= k < |ds| => EncodeDigit(ds[k]))
  }

  /** A number with its length in front. */
  function LengthPrefixed(v: nat): (t: seq<bv8>)
    requires |NumText(v)| < 64
    ensures 0 !in t && |t| == 1 + |NumText(v)|
  {
    [EncodeDigit(DigitOf(|NumText(v)|))] + NumText(v)
  }

  /** Start and length of the group take at most nine digits, so that one decimal digit announces them. */
  predicate Writable(g: Group) {
    WellFormed(g) && |NumText(g.start)| <= 9 && (g.Packed? ==> |NumText(|g.digits|)| <= 9)
  }

  predicate AllWritable(gs: seq<Group>) {
    forall k | 0 <= k < |gs| :: Writable(gs[k])
  }

  function GroupText(g: Group): (t: seq<bv8>)
    requires Writable(g)
    ensures 0 !in t
  {
    LengthPrefixed(g.start) +
    match g
    case Single(_) => [48]
    case Packed(_, ds) => LengthPrefixed(|ds|) + Chars(ds)
  }

  function TextOf(gs: seq<Group>): (t: seq<bv8>)
    requires AllWritable(gs)
    ensures 0 !in t
  {
    if gs == [] then [] else GroupText(gs[0]) + TextOf(gs[1..])
  }

  // ---------------------------------------------------------------- reading

  /** Reads all of s as a base-64 number that continues acc. */
  function ParseNum(s: seq<bv8>, acc: nat, limit: nat): Option<nat> {
    if s == [] then Some(acc)
    else if DecodeDigit(s[0]).None? || acc >= limit then None
    else ParseNum(s[1..], acc * 64 + DecodeDigit(s[0]).value as nat, limit)
  }

  predicate AllDigits(s: seq<bv8>) {
    forall k | 0 <= k < |s| :: DecodeDigit(s[k]).Some?
  }

  /** How many characters in front are digits. */
  function GoodLength(s: seq<bv8>): (n: nat)
    ensures n <= |s| && (n < |s| ==> DecodeDigit(s[n]).None?)
    ensures forall k | 0 <= k < n :: DecodeDigit(s[k]).Some?
    ensures AllDigits(s) <==> n == |s|
  {
    if s == [] || DecodeDigit(s[0]).None? then 0
    else
      assert forall k | 1 <= k < |s| :: s[k] == s[1..][k - 1];
      1 + GoodLength(s[1..])
  }

  function Values(s: seq<bv8>): (ds: seq<bv8>)
    requires AllDigits(s)
    ensures |ds| == |s|
    ensures AllSextets(ds)
  {
    seq(|s|, k requires 0 <= k < |s| => DecodeDigit(s[k]).value)
  }

  /** What one turn of the decoder's loop makes of the front of the text. A refused bitmap still tells
      how far its member numbers were counted up, until its first bad character. */
  datatype Step = Skip | Got(group: Group, used: nat) | Bad(reach: nat)

  /** A bitmap of `count` characters that starts at `from`. */
  function ParseBitmap(s: seq<bv8>, start: nat, from: nat, count: nat): (r: Step)
    requires from <= |s|
    ensures r.Got? ==> from <= r.used <= |s| && WellFormed(r.group) && r.group.start == start
    ensures !r.Skip?
  {
    if count == 0 then Got(Single(start), from)
    else if from + count > |s| then Bad(0)
    else if !AllDigits(s[from..from + count]) then Bad(start + 6 * GoodLength(s[from..from + count]))
    else Got(Packed(start, Values(s[from..from + count])), from + count)
  }

  function ParseTail(s: seq<bv8>, start: nat, at: nat, limit: nat): (r: Step)
    requires at < |s|
    ensures r.Got? ==> at < r.used <= |s| && WellFormed(r.group) && r.group.start == start
    ensures !r.Skip?
  {
    if !IsDecimal(s[at]) then Bad(0)
    else
      var cnt := DecimalValue(s[at]);
      var from := at + 1 + cnt;
      if cnt == 0 then Got(Single(start), at + 1)
      else if from > |s| then Bad(0)
      else
        match ParseNum(s[at + 1..from], 0, limit)
        case None => Bad(0)
        case Some(count) => ParseBitmap(s, start, from, count)
  }

  function ParseStep(s: seq<bv8>, limit: nat): (r: Step)
    requires s != []
    ensures r.Got? ==> 2 < r.used <= |s| && WellFormed(r.group)
  {
    if !IsDecimal(s[0]) then Bad(0)
    else
      var cnt := DecimalValue(s[0]);
      if cnt == 0 then Skip
      else if 1 + cnt >= |s| then Bad(0)
      else
        match ParseNum(s[1..1 + cnt], 0, limit)
        case None => Bad(0)
        case Some(start) => ParseTail(s, start, 1 + cnt, limit)
  }

  /** The groups of a text, or None when the checking pass of the decoder refuses it. */
  function Parse(s: seq<bv8>, limit: nat): (r: Option<seq<Group>>)
    ensures r.Some? ==> forall k | 0 <= k < |r.value| :: WellFormed(r.value[k])
    decreases |s|
  {
    if s == [] then Some([])
    else
      match ParseStep(s, limit)
      case Bad(_) => None
      case Skip => Parse(s[1..], limit)
      case Got(g, used) =>
        match Parse(s[used..], limit)
        case None => None
        case Some(gs) => Some([g] + gs)
  }

  /** What Parse does after a step that used `used` characters and found `front`. */
  function Continue(front: seq<Group>, rest: Option<seq<Group>>): Option<seq<Group>> {
    if rest.Some? then Some(front + rest.value) else None
  }

  function Front(step: Step): seq<Group> { if step.Got? then [step.group] else [] }

  function Used(step: Step): nat { if step.Got? then step.used else 1 }

  lemma ParseUnfold(s: seq<bv8>, limit: nat)
    requires s != [] && !ParseStep(s, limit).Bad?
    ensures Parse(s, limit) ==
            Continue(Front(ParseStep(s, limit)), Parse(s[Used(ParseStep(s, limit))..], limit))
  {
    var rest := Parse(s[1..], limit);
    assert rest.Some? ==> [] + rest.value == rest.value;
  }

  /** A text that is read stays read when more text follows, and the rest is read on its own. */
  lemma {:induction false} ParseConcat(a: seq<bv8>, b: seq<bv8>, limit: nat)
    requires Parse(a, limit).Some?
    ensures Parse(a + b, limit) == Continue(Parse(a, limit).value, Parse(b, limit))
    decreases |a|, 1
  {
    var rest := Parse(b, limit);
    if a == [] {
      assert a + b == b;
      assert rest.Some? ==> [] + rest.value == rest.value;
    } else {
      StepConcat(a, b, limit);
      ParseUnfold(a, limit);
      ParseUnfold(a + b, limit);
      var front, used := Front(ParseStep(a, limit)), Used(ParseStep(a, limit));
      ConcatOnce(a, b, limit, front, used, rest);
    }
  }

  lemma {:induction false} ConcatOnce(a: seq<bv8>, b: seq<bv8>, limit: nat, front: seq<Group>, used: nat,
                                      rest: Option<seq<Group>>)
    requires 0 < used <= |a| && Parse(a[used..], limit).Some?
    requires rest == Parse(b, limit)
    ensures Continue(front, Parse((a + b)[used..], limit)) ==
            Continue(front + Parse(a[used..], limit).value, rest)
    decreases |a|, 0
  {
    SuffixOfConcat(a, b, used);
    ParseConcat(a[used..], b, limit);
    hide Parse;
    var mid := Parse(a[used..], limit).value;
    if rest.Some? { Assoc(front, mid, rest.value); }
  }

  lemma StepConcat(a: seq<bv8>, b: seq<bv8>, limit: nat)
    requires a != [] && !ParseStep(a, limit).Bad?
    ensures ParseStep(a + b, limit) == ParseStep(a, limit)
  {
    hide ParseTail, ParseNum;
    var cnt := DecimalValue(a[0]);
    if cnt != 0 {
      SliceOfConcat(a, b, 1, 1 + cnt);
      TailConcat(a, b, ParseNum(a[1..1 + cnt], 0, limit).value, 1 + cnt, limit);
    }
  }

  lemma TailConcat(a: seq<bv8>, b: seq<bv8>, start: nat, at: nat, limit: nat)
    requires at < |a| && ParseTail(a, start, at, limit).Got?
    ensures ParseTail(a + b, start, at, limit) == ParseTail(a, start, at, limit)
  {
    hide ParseNum, AllDigits, Values, GoodLength;
    var cnt := DecimalValue(a[at]);
    var from := at + 1 + cnt;
    if cnt != 0 {
      SliceOfConcat(a, b, at + 1, from);
      var count := ParseNum(a[at + 1..from], 0, limit).value;
      if count != 0 {
        SliceOfConcat(a, b, from, from + count);
      }
    }
  }

  // ---------------------------------------------------------------- reading what was written

  lemma {:induction false} ParseNumConcat(a: seq<bv8>, b: seq<bv8>, acc: nat, limit: nat)
    ensures ParseNum(a + b, acc, limit) ==
            match ParseNum(a, acc, limit) {
              case None => None
              case Some(v) => ParseNum(b, v, limit)
            }
    decreases |a|
  {
    if a == [] {
      assert a + b == b;
    } else {
      assert (a + b)[1..] == a[1..] + b;
      if DecodeDigit(a[0]).Some? {
        ParseNumConcat(a[1..], b, acc * 64 + DecodeDigit(a[0]).value as nat, limit);
      }
    }
  }

  lemma ParseOneDigit(d: nat, acc: nat, limit: nat)
    requires d < 64
    ensures ParseNum([EncodeDigit(DigitOf(d))], acc, limit) == if acc < limit then Some(acc * 64 + d) else None
  {
    DecodeEncodeDigit(DigitOf(d));
    var t := [EncodeDigit(DigitOf(d))];
    if acc < limit {
      assert ParseNum(t, acc, limit) == ParseNum(t[1..], acc * 64 + d, limit);
    }
  }

  /** A written number is read back exactly when all but its last digit stay below the limit. */
  lemma {:induction false} ParseNumText(v: nat, limit: nat)
    requires limit > 0
    ensures ParseNum(NumText(v), 0, limit) == if v < 64 * limit then Some(v) else None
  {
    hide DigitOf, EncodeDigit, DecodeDigit, ParseNum;
    if v < 64 {
      ParseOneDigit(v, 0, limit);
    } else {
      var last := [EncodeDigit(DigitOf(v % 64))];
      ParseNumText(v / 64, limit);
      ParseNumConcat(NumText(v / 64), last, 0, limit);
      ParseOneDigit(v % 64, v / 64, limit);
    }
  }

  lemma ValuesOfChars(ds: seq<bv8>)
    requires AllSextets(ds)
    ensures AllDigits(Chars(ds)) && Values(Chars(ds)) == ds
  {
    forall k | 0 <= k < |ds| ensures DecodeDigit(Chars(ds)[k]) == Some(ds[k]) {
      DecodeEncodeDigit(ds[k]);
    }
  }

  predicate Readable(g: Group, limit: nat) {
    g.start < 64 * limit && (g.Packed? ==> |g.digits| < 64 * limit)
  }

  /** A number with its length in front, found at position `at` of a text. */
  predicate PrefixedAt(s: seq<bv8>, at: nat, v: nat) {
    var n := |NumText(v)|;
    at + 1 + n <= |s| && IsDecimal(s[at]) && DecimalValue(s[at]) == n && s[at + 1..at + 1 + n] == NumText(v)
  }

  lemma DecimalOfLength(n: nat)
    requires 1 <= n <= 9
    ensures var c := EncodeDigit(DigitOf(n)); IsDecimal(c) && DecimalValue(c) == n
  {
  }

  lemma PrefixedInConcat(pre: seq<bv8>, v: nat, post: seq<bv8>)
    requires |NumText(v)| <= 9
    ensures PrefixedAt(pre + (LengthPrefixed(v) + post), |pre|, v)
  {
    hide NumText, DigitOf, EncodeDigit, DecimalValue;
    var s, n := pre + (LengthPrefixed(v) + post), |NumText(v)|;
    DecimalOfLength(n);
    assert s[|pre|] == EncodeDigit(DigitOf(n));
    assert s[|pre| + 1..|pre| + 1 + n] == NumText(v);
  }

  lemma ParseWrittenStart(s: seq<bv8>, start: nat, limit: nat)
    requires limit > 0
    requires PrefixedAt(s, 0, start) && 1 + |NumText(start)| < |s|
    ensures ParseStep(s, limit) ==
            if start < 64 * limit then ParseTail(s, start, 1 + |NumText(start)|, limit) else Bad(0)
  {
    ParseNumText(start, limit);
  }

  /** A bitmap with its length in front, found at position `at` of a text. */
  predicate BitmapAt(s: seq<bv8>, at: nat, ds: seq<bv8>)
    requires AllSextets(ds)
  {
    var from := at + 1 + |NumText(|ds|)|;
    PrefixedAt(s, at, |ds|) && from + |ds| <= |s| && s[from..from + |ds|] == Chars(ds)
  }

  lemma ParseWrittenCount(s: seq<bv8>, start: nat, at: nat, n: nat, limit: nat)
    requires limit > 0 && PrefixedAt(s, at, n)
    ensures ParseTail(s, start, at, limit) ==
            if n < 64 * limit then ParseBitmap(s, start, at + 1 + |NumText(n)|, n) else Bad(0)
  {
    ParseNumText(n, limit);
  }

  lemma ParseWrittenBitmap(s: seq<bv8>, start: nat, from: nat, ds: seq<bv8>)
    requires ds != [] && AllSextets(ds)
    requires from + |ds| <= |s| && s[from..from + |ds|] == Chars(ds)
    ensures ParseBitmap(s, start, from, |ds|) == Got(Packed(start, ds), from + |ds|)
  {
    ValuesOfChars(ds);
  }

  lemma BitmapInConcat(pre: seq<bv8>, ds: seq<bv8>, rest: seq<bv8>)
    requires AllSextets(ds) && |NumText(|ds|)| <= 9
    ensures BitmapAt(pre + (LengthPrefixed(|ds|) + (Chars(ds) + rest)), |pre|, ds)
  {
    hide NumText, DigitOf, EncodeDigit, PrefixedAt, Chars, LengthPrefixed;
    PrefixedInConcat(pre, |ds|, Chars(ds) + rest);
    var s, lead := pre + (LengthPrefixed(|ds|) + (Chars(ds) + rest)), pre + LengthPrefixed(|ds|);
    assert s == lead + (Chars(ds) + rest);
    assert s[|lead|..][..|ds|] == Chars(ds);
  }

  lemma ParseSingle(start: nat, rest: seq<bv8>, limit: nat)
    requires |NumText(start)| <= 9 && limit > 0
    ensures var s := LengthPrefixed(start) + ([48] + rest);
            ParseStep(s, limit) ==
              if start < 64 * limit then Got(Single(start), |LengthPrefixed(start)| + 1) else Bad(0)
  {
    hide NumText, DigitOf, EncodeDigit, ParseNum, LengthPrefixed;
    var pre := LengthPrefixed(start);
    var s := pre + ([48] + rest);
    assert s == [] + s;
    PrefixedInConcat([], start, [48] + rest);
    ParseWrittenStart(s, start, limit);
    assert s[|pre|] == 48;
  }

  lemma PackedLayout(start: nat, ds: seq<bv8>, rest: seq<bv8>)
    requires AllSextets(ds) && |NumText(start)| <= 9 && |NumText(|ds|)| <= 9
    ensures var s := LengthPrefixed(start) + (LengthPrefixed(|ds|) + (Chars(ds) + rest));
            && PrefixedAt(s, 0, start)
            && BitmapAt(s, 1 + |NumText(start)|, ds)
  {
    hide NumText, Chars, LengthPrefixed, PrefixedAt, BitmapAt;
    var pre, tail := LengthPrefixed(start), LengthPrefixed(|ds|) + (Chars(ds) + rest);
    assert pre + tail == [] + (pre + tail);
    PrefixedInConcat([], start, tail);
    BitmapInConcat(pre, ds, rest);
  }

  lemma ParsePacked(s: seq<bv8>, start: nat, ds: seq<bv8>, limit: nat)
    requires limit > 0 && ds != [] && AllSextets(ds)
    requires PrefixedAt(s, 0, start) && BitmapAt(s, 1 + |NumText(start)|, ds)
    ensures ParseStep(s, limit) ==
            if start >= 64 * limit || |ds| >= 64 * limit then Bad(0)
            else Got(Packed(start, ds), 1 + |NumText(start)| + 1 + |NumText(|ds|)| + |ds|)
  {
    hide ParseStep, ParseTail, ParseBitmap, NumText, PrefixedAt, Chars;
    assert PrefixedAt(s, 1 + |NumText(start)|, |ds|) && 1 + |NumText(start)| < |s|;
    ParseWrittenStart(s, start, limit);
    if start < 64 * limit {
      var at := 1 + |NumText(start)|;
      ParseWrittenCount(s, start, at, |ds|, limit);
      ParseWrittenBitmap(s, start, at + 1 + |NumText(|ds|)|, ds);
    }
  }

  lemma GroupTextAssoc(g: Group, rest: seq<bv8>)
    requires Writable(g)
    ensures GroupText(g) + rest ==
            LengthPrefixed(g.start) +
            if g.Single? then [48] + rest else LengthPrefixed(|g.digits|) + (Chars(g.digits) + rest)
  {
    if g.Packed? {
      assert GroupText(g) == LengthPrefixed(g.start) + (LengthPrefixed(|g.digits|) + Chars(g.digits));
    }
  }

  lemma ParseGroup(g: Group, rest: seq<bv8>, limit: nat)
    requires Writable(g) && limit > 0
    ensures ParseStep(GroupText(g) + rest, limit) ==
              if Readable(g, limit) then Got(g, |GroupText(g)|) else Bad(0)
  {
    GroupTextAssoc(g, rest);
    match g
    case Single(start) => ParseSingle(start, rest, limit);
    case Packed(start, ds) =>
      PackedLayout(start, ds, rest);
      ParsePacked(GroupText(g) + rest, start, ds, limit);
      assert |GroupText(g)| == |LengthPrefixed(start)| + |LengthPrefixed(|ds|)| + |ds|;
  }

  predicate AllReadable(gs: seq<Group>, limit: nat) {
    forall k | 0 <= k < |gs| :: Readable(gs[k], limit)
  }

  lemma ReadableTail(gs: seq<Group>, limit: nat)
    requires gs != []
    ensures AllReadable(gs, limit) <==> Readable(gs[0], limit) && AllReadable(gs[1..], limit)
    ensures [gs[0]] + gs[1..] == gs
  {
    hide Readable;
    assert forall k | 1 <= k < |gs| :: gs[k] == gs[1..][k - 1];
  }

  /** The checking pass accepts a written text exactly when every start and bitmap length is below
      64 * limit, and then it finds the groups that were written. */
  lemma {:induction false} ParseTextOf(gs: seq<Group>, limit: nat)
    requires limit > 0 && AllWritable(gs)
    ensures Parse(TextOf(gs), limit) == if AllReadable(gs, limit) then Some(gs) else None
  {
    if gs == [] {
    } else {
      hide ParseStep, GroupText, Readable, Writable, Parse;
      var g, rest := gs[0], TextOf(gs[1..]);
      var s := GroupText(g) + rest;
      ParseGroup(g, rest, limit);
      if Readable(g, limit) {
        ParseUnfold(s, limit);
        assert s[|GroupText(g)|..] == rest;
        ParseTextOf(gs[1..], limit);
        ReadableTail(gs, limit);
      }
    }
  }

  // ---------------------------------------------------------------- what else the decoder takes, and what it refuses

  /** A group without a start, the single character '0', is skipped. */
  lemma ZeroSkipped(s: seq<bv8>, limit: nat)
    ensures Parse([48] + s, limit) == Parse(s, limit)
  {
    assert ([48] + s)[1..] == s;
  }

  /** The end of a start number: what follows is read by ParseTail. */
  lemma StartRead(start: nat, tail: seq<bv8>, limit: nat)
    requires |NumText(start)| <= 9 && start < 64 * limit && tail != []
    ensures var s, at := LengthPrefixed(start) + tail, 1 + |NumText(start)|;
            at < |s| && s[at..] == tail && ParseStep(s, limit) == ParseTail(s, start, at, limit)
  {
    hide NumText, ParseStep, ParseTail;
    var s := LengthPrefixed(start) + tail;
    PrefixedInConcat([], start, tail);
    assert [] + s == s;
    ParseWrittenStart(s, start, limit);
  }

  lemma ZeroCount(s: seq<bv8>, start: nat, at: nat, limit: nat)
    requires limit > 0 && at + 2 <= |s| && s[at] == 49 && s[at + 1] == 48
    ensures ParseTail(s, start, at, limit) == Got(Single(start), at + 2)
  {
    assert s[at + 1..at + 2] == [48] && [48][1..] == [];
    assert ParseNum([48], 0, limit) == ParseNum([48][1..], 0, limit);
  }

  /** A bitmap of length zero, which is never written, stands for the start alone. */
  lemma EmptyBitmapIsSingle(start: nat, rest: seq<bv8>, limit: nat)
    requires |NumText(start)| <= 9 && start < 64 * limit
    ensures Parse(LengthPrefixed(start) + ([49, 48] + rest), limit) ==
            Continue([Single(start)], Parse(rest, limit))
  {
    hide NumText, Parse, LengthPrefixed, ParseStep, ParseTail;
    var tail := [49, 48] + rest;
    var s, at := LengthPrefixed(start) + tail, 1 + |NumText(start)|;
    StartRead(start, tail, limit);
    assert s[at] == tail[0] && s[at + 1] == tail[1] && s[at + 2..] == tail[2..] == rest;
    ZeroCount(s, start, at, limit);
    ParseUnfold(s, limit);
  }

  lemma StepRefused(s: seq<bv8>, limit: nat)
    requires s != [] && ParseStep(s, limit).Bad?
    ensures Parse(s, limit) == None
  {
  }

  /** A number that is announced but not all there. */
  lemma CutStart(s: seq<bv8>, limit: nat)
    requires s != [] && IsDecimal(s[0]) && 0 < DecimalValue(s[0]) && |s| <= 1 + DecimalValue(s[0])
    ensures ParseStep(s, limit).Bad?
  {
  }

  lemma CutCount(s: seq<bv8>, start: nat, at: nat, limit: nat)
    requires at < |s| && IsDecimal(s[at]) && |s| < at + 1 + DecimalValue(s[at])
    ensures ParseTail(s, start, at, limit).Bad?
  {
  }

  lemma CutBitmap(s: seq<bv8>, start: nat, at: nat, n: nat, limit: nat)
    requires limit > 0 && PrefixedAt(s, at, n) && 0 < n && |s| < at + 1 + |NumText(n)| + n
    ensures ParseTail(s, start, at, limit).Bad?
  {
    hide NumText;
    ParseWrittenCount(s, start, at, n, limit);
  }

  lemma PrefixedInFront(s: seq<bv8>, k: nat, at: nat, v: nat)
    requires k <= |s| && PrefixedAt(s, at, v)
    ensures at < k ==> IsDecimal(s[..k][at]) && DecimalValue(s[..k][at]) == |NumText(v)|
    ensures at + 1 + |NumText(v)| <= k ==> PrefixedAt(s[..k], at, v)
  {
    hide NumText, IsDecimal, DecimalValue;
    if at + 1 + |NumText(v)| <= k {
      assert s[..k][at + 1..at + 1 + |NumText(v)|] == s[at + 1..at + 1 + |NumText(v)|];
    }
  }

  /** The text of a group with something missing at its end is refused. */
  lemma TruncatedIsRefused(g: Group, k: nat, limit: nat)
    requires limit > 0 && Writable(g) && 0 < k < |GroupText(g)|
    ensures Parse(GroupText(g)[..k], limit) == None
  {
    hide NumText, Parse, IsDecimal, DecimalValue, Chars, ParseStep, ParseTail, LengthPrefixed;
    var s, at := GroupText(g), 1 + |NumText(g.start)|;
    var tail := match g { case Single(_) => [48] case Packed(_, ds) => LengthPrefixed(|ds|) + Chars(ds) };
    PrefixedInConcat([], g.start, tail);
    assert [] + (LengthPrefixed(g.start) + tail) == s;
    PrefixedInFront(s, k, 0, g.start);
    if k <= at {
      CutStart(s[..k], limit);
    } else {
      var ds := g.digits;
      PrefixedInConcat(LengthPrefixed(g.start), |ds|, Chars(ds));
      PrefixedInFront(s, k, at, |ds|);
      ParseWrittenStart(s[..k], g.start, limit);
      if k < at + 1 + |NumText(|ds|)| {
        CutCount(s[..k], g.start, at, limit);
      } else {
        CutBitmap(s[..k], g.start, at, |ds|, limit);
      }
    }
    StepRefused(s[..k], limit);
  }
}
