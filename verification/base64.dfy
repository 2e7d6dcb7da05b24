/** base64.c: the base64 coder that spreads and squeezes bits inside one 32-bit word. */
module Base64 {
  import opened CTypes

  // ---------------------------------------------------------------- the alphabet

  /** base64_encode_table: A-Z, a-z, 0-9, '+', '/'. */
  function EncodeChar(v: bv8): (c: bv8)
    requires v < 64
  {
    if v < 26 then v + 65
    else if v < 52 then v + 71
    else if v < 62 then v - 4
    else if v == 62 then 43
    else 47
  }

  const JUNK: bv8 := 64
  const PAD: bv8 := 61

  /** base64_decode_table: 64 for bytes outside the alphabet, 65 for '='. */
  function DecodeChar(c: bv8): bv8 {
    if 65 <= c <= 90 then c - 65
    else if 97 <= c <= 122 then c - 71
    else if 48 <= c <= 57 then c + 4
    else if c == 43 then 62
    else if c == 47 then 63
    else if c == PAD then 65
    else JUNK
  }

  predicate IsJunk(c: bv8) { DecodeChar(c) == JUNK }

  lemma DecodeEncodeChar(v: bv8)
    requires v < 64
    ensures DecodeChar(EncodeChar(v)) == v && EncodeChar(v) != PAD
  {
  }

  predicate IsUpper(c: bv8) { 65 <= c <= 90 }

  predicate IsLower(c: bv8) { 97 <= c <= 122 }

  predicate IsDigit(c: bv8) { 48 <= c <= 57 }

  /** Table 1 of RFC 4648: the capital letters in order, the small ones, the digits, '+' and '/'. */
  lemma AlphabetOrder(v: bv8, w: bv8)
    requires v < w < 64
    ensures w < 26 ==> IsUpper(EncodeChar(v)) && IsUpper(EncodeChar(w)) && EncodeChar(v) < EncodeChar(w)
    ensures 26 <= v && w < 52 ==> IsLower(EncodeChar(v)) && IsLower(EncodeChar(w)) && EncodeChar(v) < EncodeChar(w)
    ensures 52 <= v && w < 62 ==> IsDigit(EncodeChar(v)) && IsDigit(EncodeChar(w)) && EncodeChar(v) < EncodeChar(w)
    ensures EncodeChar(62) == 43 && EncodeChar(63) == 47
  {
  }

  /** The decoding table: the value of a character of the alphabet, 65 for '=', 64 for all others. */
  lemma DecodingTable(c: bv8)
    ensures DecodeChar(c) < 64 ==> EncodeChar(DecodeChar(c)) == c
    ensures DecodeChar(c) >= 64 ==> DecodeChar(c) == if c == 61 then 65 else 64
  {
  }

  lemma DecodeCharRange(c: bv8)
    ensures c != PAD && !IsJunk(c) <==> DecodeChar(c) < 64
  {
  }

  // ---------------------------------------------------------------- the standard: section 4 of RFC 4648

  /** A 24-bit group as four 6-bit values. */
  function Sextets(a: bv8, b: bv8, c: bv8): (s: (bv8, bv8, bv8, bv8))
    ensures s.0 < 64 && s.1 < 64 && s.2 < 64 && s.3 < 64
  {
    (a >> 2, ((a & 3) << 4) | (b >> 4), ((b & 15) << 2) | (c >> 6), c & 63)
  }

  /** The first byte gives the highest bits. */
  lemma SextetsValue(a: bv8, b: bv8, c: bv8)
    ensures var s := Sextets(a, b, c);
            ((s.0 as bv32) << 18) | ((s.1 as bv32) << 12) | ((s.2 as bv32) << 6) | (s.3 as bv32)
            == ((a as bv32) << 16) | ((b as bv32) << 8) | (c as bv32)
  {
  }

  function QuadOf(a: bv8, b: bv8, c: bv8): (q: seq<bv8>)
    ensures |q| == 4
  {
    var s := Sextets(a, b, c);
    [EncodeChar(s.0), EncodeChar(s.1), EncodeChar(s.2), EncodeChar(s.3)]
  }

  /** Groups of three bytes give four characters; a last group of two or one is filled with zero bits
      and the missing characters are '='. */
  function Rfc4648(bytes: seq<bv8>): (text: seq<bv8>)
    ensures |text| == (|bytes| + 2) / 3 * 4
  {
    if bytes == [] then []
    else if |bytes| == 1 then
      var s := Sextets(bytes[0], 0, 0);
      [EncodeChar(s.0), EncodeChar(s.1), PAD, PAD]
    else if |bytes| == 2 then
      var s := Sextets(bytes[0], bytes[1], 0);
      [EncodeChar(s.0), EncodeChar(s.1), EncodeChar(s.2), PAD]
    else
      QuadOf(bytes[0], bytes[1], bytes[2]) + Rfc4648(bytes[3..])
  }

  /** Test vectors of section 10 of RFC 4648: "", "f", "fo" and "foo". */
  lemma TestVectors()
    ensures Rfc4648([]) == [] && Rfc4648([102]) == [90, 103, 61, 61]
    ensures Rfc4648([102, 111]) == [90, 109, 56, 61] && Rfc4648([102, 111, 111]) == [90, 109, 57, 118]
  {
    VectorSextets();
    hide Sextets, EncodeChar;
    assert [102, 111, 111][3..] == [];
  }

  lemma VectorSextets()
    ensures Sextets(102, 0, 0) == (25, 32, 0, 0) && Sextets(102, 111, 0) == (25, 38, 60, 0)
    ensures Sextets(102, 111, 111) == (25, 38, 61, 47)
    ensures EncodeChar(25) == 90 && EncodeChar(32) == 103 && EncodeChar(38) == 109 && EncodeChar(60) == 56
    ensures EncodeChar(61) == 57 && EncodeChar(47) == 118
  {
  }

  // ---------------------------------------------------------------- encoding

  function Wide(b: bv8): bv32 { b as bv32 }

  /** The low byte of a word. */
  function Byte0(w: bv32): bv8 { (w & 0xFF) as bv8 }

  /** (ebuf >> shift) & 0xFF */
  function Index(ebuf: bv32, shift: nat): bv8
    requires shift <= 24
  {
    Byte0(ebuf >> shift)
  }

  /** `ebuf += ebuf & ~mask`, twice: everything above the mask moves up by two bits. */
  function Spread(ebuf: bv32, mask: bv32): bv32 {
    var once := ebuf + (ebuf & !mask);
    once + (once & !mask)
  }

  /** A 24-bit group spread over the four bytes of a word. */
  function Spread3(a: bv8, b: bv8, c: bv8): bv32 {
    var ebuf := (Wide(a) << 16) | (Wide(b) << 8) | Wide(c);
    Spread(Spread(Spread(ebuf, 0x3FFFF), 0xFFF), 0x3F)
  }

  function Spread2(a: bv8, b: bv8): bv32 {
    Spread(Spread((Wide(a) << 10) | (Wide(b) << 2), 0xFFF), 0x3F)
  }

  function Spread1(a: bv8): bv32 {
    Spread(Wide(a) << 4, 0x3F)
  }

  lemma Spread3Fields(a: bv8, b: bv8, c: bv8)
    ensures var e, s := Spread3(a, b, c), Sextets(a, b, c);
            Byte0(e >> 24) == s.0 && Byte0(e >> 16) == s.1 && Byte0(e >> 8) == s.2 && Byte0(e >> 0) == s.3
  {
  }

  /** The spreading additions put the four 6-bit values of a group into the four bytes of the word. */
  lemma Spread3IsSextets(a: bv8, b: bv8, c: bv8)
    ensures var e, s := Spread3(a, b, c), Sextets(a, b, c);
            Index(e, 24) == s.0 && Index(e, 16) == s.1 && Index(e, 8) == s.2 && Index(e, 0) == s.3
  {
    hide Spread3, Sextets, Byte0;
    Spread3Fields(a, b, c);
  }

  lemma Spread2IsSextets(a: bv8, b: bv8)
    ensures var e, s := Spread2(a, b), Sextets(a, b, 0);
            Index(e, 16) == s.0 && Index(e, 8) == s.1 && Index(e, 0) == s.2
  {
  }

  lemma Spread1IsSextets(a: bv8)
    ensures var e, s := Spread1(a), Sextets(a, 0, 0);
            Index(e, 8) == s.0 && Index(e, 0) == s.1
  {
  }

  /** *s++ = c, four times */
  method Put4(out: array<bv8>, s: nat, c0: bv8, c1: bv8, c2: bv8, c3: bv8) returns (next: nat)
    requires s + 4 <= out.Length
    modifies out
    ensures next == s + 4 && out[..next] == old(out[..s]) + [c0, c1, c2, c3]
    ensures forall k | next <= k < out.Length :: out[k] == old(out[k])
  {
    out[s], out[s + 1], out[s + 2], out[s + 3] := c0, c1, c2, c3;
    next := s + 4;
  }

  lemma Rfc4648Step(bytes: seq<bv8>)
    requires |bytes| >= 3
    ensures Rfc4648(bytes) == QuadOf(bytes[0], bytes[1], bytes[2]) + Rfc4648(bytes[3..])
  {
    hide QuadOf, Sextets, EncodeChar;
  }

  /** The last group, when there are one or two bytes left. */
  method EncodeTail(rest: seq<bv8>, out: array<bv8>, s: nat) returns (n: nat)
    requires |rest| < 3 && s + |Rfc4648(rest)| <= out.Length
    modifies out
    ensures n == s + |Rfc4648(rest)| && out[..n] == old(out[..s]) + Rfc4648(rest)
    ensures forall k | n <= k < out.Length :: out[k] == old(out[k])
  {
    hide EncodeChar, Sextets, Spread2, Spread1, Index;
    n := s;
    if |rest| == 2 {
      var ebuf := Spread2(rest[0], rest[1]);
      Spread2IsSextets(rest[0], rest[1]);
      n := Put4(out, s, EncodeChar(Index(ebuf, 16)), EncodeChar(Index(ebuf, 8)), EncodeChar(Index(ebuf, 0)), PAD);
    } else if |rest| == 1 {
      var ebuf := Spread1(rest[0]);
      Spread1IsSextets(rest[0]);
      n := Put4(out, s, EncodeChar(Index(ebuf, 8)), EncodeChar(Index(ebuf, 0)), PAD, PAD);
    }
  }

  /** A group of three bytes. */
  method EncodeGroup(a: bv8, b: bv8, c: bv8, out: array<bv8>, s: nat) returns (n: nat)
    requires s + 4 <= out.Length
    modifies out
    ensures n == s + 4 && out[..n] == old(out[..s]) + QuadOf(a, b, c)
    ensures forall k | n <= k < out.Length :: out[k] == old(out[k])
  {
    hide EncodeChar, Sextets, Spread3, Index;
    var ebuf := Spread3(a, b, c);
    Spread3IsSextets(a, b, c);
    n := Put4(out, s, EncodeChar(Index(ebuf, 24)), EncodeChar(Index(ebuf, 16)),
              EncodeChar(Index(ebuf, 8)), EncodeChar(Index(ebuf, 0)));
  }

  /** base64_encode: the grouping of the standard, in exactly 4 * ceil(n / 3) characters. */
  method Encode(inp: seq<bv8>, out: array<bv8>) returns (n: nat)
    requires (|inp| + 2) / 3 * 4 <= out.Length
    modifies out
    ensures n == (|inp| + 2) / 3 * 4
    ensures out[..n] == Rfc4648(inp)
    ensures forall k | n <= k < out.Length :: out[k] == old(out[k])
  {
    hide QuadOf, Rfc4648;
    var nw := |inp| / 3;
    var p, s := 0, 0;
    assert inp[0..] == inp;
    for i := 0 to nw
      invariant p == 3 * i && s == 4 * i
      invariant out[..s] + Rfc4648(inp[p..]) == Rfc4648(inp)
      invariant forall k | s <= k < out.Length :: out[k] == old(out[k])
    {
      ghost var rest, done := inp[p..], out[..s];
      Rfc4648Step(rest);
      assert rest[3..] == inp[p + 3..];
      s := EncodeGroup(inp[p], inp[p + 1], inp[p + 2], out, s);
      p := p + 3;
      ghost var quad := QuadOf(rest[0], rest[1], rest[2]);
      Assoc(done, quad, Rfc4648(inp[p..]));
    }
    s := EncodeTail(inp[p..], out, s);
    return s;
  }

  // ---------------------------------------------------------------- what a text decodes to

  /** The three bytes of four 6-bit values. */
  function Bytes(s: seq<bv8>): (b: (bv8, bv8, bv8))
    requires |s| == 4
  {
    ((s[0] << 2) | (s[1] >> 4), ((s[1] & 15) << 4) | (s[2] >> 2), ((s[2] & 3) << 6) | s[3])
  }

  /** What the first '=' makes of an unfinished group, given the byte that follows it. */
  function AtPad(pend: seq<bv8>, next: bv8): (seq<bv8>, bool)
    requires |pend| < 4
  {
    if |pend| == 3 then ([Bytes(pend + [0]).0, Bytes(pend + [0]).1], false)
    else if |pend| == 2 && next == PAD then ([Bytes(pend + [0, 0]).0], false)
    else ([], true)
  }

  /** Decoding without any bit trick: `pend` holds the 6-bit values of an unfinished group, `after` is the
      byte that follows the input in memory, which a lone '=' at the end makes the decoder look at. */
  function DecodeFrom(s: seq<bv8>, pend: seq<bv8>, after: bv8): (r: (seq<bv8>, bool))
    requires |pend| < 4
  {
    if s == [] then ([], pend != [])
    else if IsJunk(s[0]) then DecodeFrom(s[1..], pend, after)
    else if s[0] == PAD then
      AtPad(pend, if |s| > 1 then s[1] else after)
    else
      var all := pend + [DecodeChar(s[0])];
      if |all| < 4 then DecodeFrom(s[1..], all, after)
      else
        var b := Bytes(all);
        var rest := DecodeFrom(s[1..], [], after);
        ([b.0, b.1, b.2] + rest.0, rest.1)
  }

  lemma BytesOfSextets(a: bv8, b: bv8, c: bv8)
    ensures var s := Sextets(a, b, c); Bytes([s.0, s.1, s.2, s.3]) == (a, b, c)
  {
  }

  /** One character of the alphabet. */
  lemma DecodeOne(v: bv8, rest: seq<bv8>, pend: seq<bv8>, after: bv8)
    requires v < 64 && |pend| < 4
    ensures var all := pend + [v]; var r := DecodeFrom(rest, [], after);
            DecodeFrom([EncodeChar(v)] + rest, pend, after) ==
              if |pend| < 3 then DecodeFrom(rest, all, after)
              else ([Bytes(all).0, Bytes(all).1, Bytes(all).2] + r.0, r.1)
  {
    DecodeEncodeChar(v);
    hide EncodeChar, Bytes;
    assert ([EncodeChar(v)] + rest)[1..] == rest;
  }

  lemma DecodeTwo(s0: bv8, s1: bv8, rest: seq<bv8>, after: bv8)
    requires s0 < 64 && s1 < 64
    ensures DecodeFrom([EncodeChar(s0), EncodeChar(s1)] + rest, [], after) == DecodeFrom(rest, [s0, s1], after)
  {
    hide EncodeChar, DecodeFrom;
    DecodeOne(s0, [EncodeChar(s1)] + rest, [], after);
    DecodeOne(s1, rest, [s0], after);
    assert [] + [s0] == [s0] && [s0] + [s1] == [s0, s1];
    assert [EncodeChar(s0), EncodeChar(s1)] + rest == [EncodeChar(s0)] + ([EncodeChar(s1)] + rest);
  }

  /** One group of four characters of the alphabet. */
  lemma DecodeQuad(s0: bv8, s1: bv8, s2: bv8, s3: bv8, rest: seq<bv8>, after: bv8)
    requires s0 < 64 && s1 < 64 && s2 < 64 && s3 < 64
    ensures var text := [EncodeChar(s0), EncodeChar(s1), EncodeChar(s2), EncodeChar(s3)] + rest;
            var b, r := Bytes([s0, s1, s2, s3]), DecodeFrom(rest, [], after);
            DecodeFrom(text, [], after) == ([b.0, b.1, b.2] + r.0, r.1)
  {
    hide EncodeChar, Bytes, DecodeFrom;
    var c0, c1, c2, c3 := EncodeChar(s0), EncodeChar(s1), EncodeChar(s2), EncodeChar(s3);
    DecodeTwo(s0, s1, [c2] + ([c3] + rest), after);
    DecodeOne(s2, [c3] + rest, [s0, s1], after);
    DecodeOne(s3, rest, [s0, s1, s2], after);
    assert [s0, s1] + [s2] == [s0, s1, s2] && [s0, s1, s2] + [s3] == [s0, s1, s2, s3];
    assert [c0, c1, c2, c3] + rest == [c0, c1] + ([c2] + ([c3] + rest));
  }

  /** The last group of an encoded text, with one or two '='. */
  lemma DecodePadded(s0: bv8, s1: bv8, s2: bv8, after: bv8)
    requires s0 < 64 && s1 < 64 && s2 < 64
    ensures DecodeFrom([EncodeChar(s0), EncodeChar(s1), PAD, PAD], [], after) == ([Bytes([s0, s1, 0, 0]).0], false)
    ensures var b := Bytes([s0, s1, s2, 0]);
            DecodeFrom([EncodeChar(s0), EncodeChar(s1), EncodeChar(s2), PAD], [], after) == ([b.0, b.1], false)
  {
    hide EncodeChar, Bytes;
    var c0, c1, c2 := EncodeChar(s0), EncodeChar(s1), EncodeChar(s2);
    DecodeTwo(s0, s1, [PAD, PAD], after);
    DecodeTwo(s0, s1, [c2] + [PAD], after);
    DecodeOne(s2, [PAD], [s0, s1], after);
    assert [c0, c1] + [PAD, PAD] == [c0, c1, PAD, PAD] && [c0, c1] + ([c2] + [PAD]) == [c0, c1, c2, PAD];
    assert [s0, s1] + [0, 0] == [s0, s1, 0, 0] && [s0, s1] + [s2] == [s0, s1, s2];
    assert [s0, s1, s2] + [0] == [s0, s1, s2, 0];
  }

  /** Decoding an encoded byte array gives the array back, without an error. */
  lemma {:induction false} RoundTrip(bytes: seq<bv8>, after: bv8)
    ensures DecodeFrom(Rfc4648(bytes), [], after) == (bytes, false)
  {
    hide EncodeChar, Bytes;
    if |bytes| == 1 {
      var s := Sextets(bytes[0], 0, 0);
      LastSextets(bytes[0], 0);
      BytesOfSextets(bytes[0], 0, 0);
      assert bytes == [bytes[0]];
      DecodePadded(s.0, s.1, 0, after);
    } else if |bytes| == 2 {
      var s := Sextets(bytes[0], bytes[1], 0);
      LastSextets(bytes[0], bytes[1]);
      BytesOfSextets(bytes[0], bytes[1], 0);
      assert bytes == [bytes[0], bytes[1]];
      DecodePadded(s.0, s.1, s.2, after);
    } else if |bytes| >= 3 {
      var s := Sextets(bytes[0], bytes[1], bytes[2]);
      BytesOfSextets(bytes[0], bytes[1], bytes[2]);
      DecodeQuad(s.0, s.1, s.2, s.3, Rfc4648(bytes[3..]), after);
      RoundTrip(bytes[3..], after);
      assert bytes == [bytes[0], bytes[1], bytes[2]] + bytes[3..];
    }
  }

  lemma LastSextets(a: bv8, b: bv8)
    ensures var s := Sextets(a, b, 0); s.3 == 0 && (b == 0 ==> s.2 == 0)
  {
  }

  /** The text without the bytes in front of the first '=' that are not in the alphabet. */
  function StripJunk(s: seq<bv8>): seq<bv8> {
    if s == [] || s[0] == PAD then s
    else if IsJunk(s[0]) then StripJunk(s[1..])
    else [s[0]] + StripJunk(s[1..])
  }

  /** Junk in front of the first '=' changes neither the output nor the error flag. */
  lemma {:induction false} JunkIgnored(s: seq<bv8>, pend: seq<bv8>, after: bv8)
    requires |pend| < 4
    ensures DecodeFrom(StripJunk(s), pend, after) == DecodeFrom(s, pend, after)
    decreases |s|
  {
    hide DecodeChar, Bytes;
    if s != [] && s[0] != PAD {
      if IsJunk(s[0]) {
        JunkIgnored(s[1..], pend, after);
      } else {
        assert ([s[0]] + StripJunk(s[1..]))[1..] == StripJunk(s[1..]);
        JunkIgnored(s[1..], if |pend| < 3 then pend + [DecodeChar(s[0])] else [], after);
      }
    }
  }

  /** Inserting junk anywhere in front of the first '=' is stripped again. */
  lemma {:induction false} InsertedJunk(front: seq<bv8>, junk: seq<bv8>, back: seq<bv8>)
    requires PAD !in front && forall k | 0 <= k < |junk| :: IsJunk(junk[k])
    ensures StripJunk(front + junk + back) == StripJunk(front + back)
    decreases |front|, |junk|
  {
    var s, t := front + junk + back, front + back;
    if front != [] {
      InsertedJunk(front[1..], junk, back);
      assert s[1..] == front[1..] + junk + back && t[1..] == front[1..] + back;
    } else if junk != [] {
      InsertedJunk([], junk[1..], back);
      assert s[1..] == [] + junk[1..] + back;
    } else {
      assert s == t;
    }
  }

  /** Section 6.8 of RFC 2045: bytes outside the alphabet are ignored, wherever they stand in front of the
      first '='. */
  lemma JunkTolerance(front: seq<bv8>, junk: seq<bv8>, back: seq<bv8>, after: bv8)
    requires PAD !in front && forall k | 0 <= k < |junk| :: IsJunk(junk[k])
    ensures DecodeFrom(front + junk + back, [], after) == DecodeFrom(front + back, [], after)
  {
    JunkIgnored(front + junk + back, [], after);
    JunkIgnored(front + back, [], after);
    InsertedJunk(front, junk, back);
  }

  /** How many characters of the alphabet stand in front of the first '='. */
  function Letters(s: seq<bv8>): nat {
    if s == [] || s[0] == 61 then 0 else (if IsJunk(s[0]) then 0 else 1) + Letters(s[1..])
  }

  function FirstPad(s: seq<bv8>): (i: nat)
    ensures i <= |s| && (i < |s| ==> s[i] == 61) && 61 !in s[..i]
  {
    if s == [] || s[0] == 61 then 0
    else
      var i := FirstPad(s[1..]);
      assert s[..i + 1] == [s[0]] + s[1..][..i];
      1 + i
  }

  /** The byte behind the first '='. */
  function BehindPad(s: seq<bv8>, after: bv8): bv8 {
    if FirstPad(s) + 1 < |s| then s[FirstPad(s) + 1] else after
  }

  lemma FirstPadTail(s: seq<bv8>, after: bv8)
    requires s != [] && s[0] != 61
    ensures FirstPad(s) == 1 + FirstPad(s[1..]) && BehindPad(s, after) == BehindPad(s[1..], after)
    ensures (FirstPad(s) == |s|) == (FirstPad(s[1..]) == |s[1..]|)
  {
  }

  lemma FirstPadHere(s: seq<bv8>, after: bv8)
    requires s == [] || s[0] == 61
    ensures FirstPad(s) == 0 && (|s| > 1 ==> BehindPad(s, after) == s[1]) && (|s| == 1 ==> BehindPad(s, after) == after)
  {
  }

  lemma PadIsNoJunk()
    ensures !IsJunk(61)
  {
  }

  /** The flag and the number of bytes for any text. Four characters of the alphabet make three bytes. Without '='
      nothing may be left over; in front of the first '=' three characters make two bytes, and two make one when
      another '=' follows; anything else is an error, and makes none. */
  lemma {:induction false} DecodedFlag(s: seq<bv8>, pend: seq<bv8>, after: bv8)
    requires |pend| < 4
    ensures var r, n := DecodeFrom(s, pend, after), |pend| + Letters(s);
            && (r.1 <==>
                  if FirstPad(s) == |s| then n % 4 != 0
                  else n % 4 != 3 && !(n % 4 == 2 && BehindPad(s, after) == 61))
            && |r.0| == 3 * (n / 4) + if FirstPad(s) == |s| || r.1 then 0 else n % 4 - 1
    decreases |s|
  {
    hide DecodeChar, Bytes, FirstPad, BehindPad;
    PadIsNoJunk();
    if s == [] || s[0] == 61 {
      FirstPadHere(s, after);
    } else {
      FirstPadTail(s, after);
      if IsJunk(s[0]) {
        DecodedFlag(s[1..], pend, after);
      } else if |pend| < 3 {
        DecodedFlag(s[1..], pend + [DecodeChar(s[0])], after);
      } else {
        DecodedFlag(s[1..], [], after);
      }
    }
  }

  // ---------------------------------------------------------------- decoding

  /** `b = (b & mask) | ((b & ~mask) >> 2)` */
  function Squeeze(b: bv32, mask: bv32): bv32 {
    (b & mask) | ((b & !mask) >> 2)
  }

  /** `b = (b << 8) | d` */
  function Shift(b: bv32, d: bv8): bv32 { (b << 8) | Wide(d) }

  /** The accumulator that held `oldBits` and then took in the values of pend. */
  ghost function Feed(oldBits: bv32, pend: seq<bv8>): bv32 {
    if pend == [] then oldBits else Shift(Feed(oldBits, pend[..|pend| - 1]), pend[|pend| - 1])
  }

  lemma FeedMore(oldBits: bv32, pend: seq<bv8>, d: bv8)
    ensures Feed(oldBits, pend + [d]) == Shift(Feed(oldBits, pend), d)
  {
    assert (pend + [d])[..|pend|] == pend;
  }

  predicate Values(pend: seq<bv8>) { forall k | 0 <= k < |pend| :: pend[k] < 64 }

  function Squeeze4(b: bv32): bv32 { Squeeze(Squeeze(Squeeze(b, 0x3F), 0xFFF), 0x3FFFF) }

  function Squeeze3(b: bv32): bv32 { Squeeze(Squeeze(b, 0x3F), 0xFFF) >> 2 }

  function Squeeze2(b: bv32): bv32 { Squeeze(b, 0x3F) >> 4 }

  lemma Squeeze4Bits(o: bv32, s0: bv8, s1: bv8, s2: bv8, s3: bv8)
    requires s0 < 64 && s1 < 64 && s2 < 64 && s3 < 64
    ensures var w := Squeeze4(Shift(Shift(Shift(Shift(o, s0), s1), s2), s3)); var b := Bytes([s0, s1, s2, s3]);
            b.0 == Byte0(w >> 16) && b.1 == Byte0(w >> 8) && b.2 == Byte0(w >> 0)
  {
  }

  lemma Squeeze3Bits(o: bv32, s0: bv8, s1: bv8, s2: bv8)
    requires s0 < 64 && s1 < 64 && s2 < 64
    ensures var w := Squeeze3(Shift(Shift(Shift(o, s0), s1), s2)); var b := Bytes([s0, s1, s2, 0]);
            b.0 == Byte0(w >> 8) && b.1 == Byte0(w >> 0)
  {
  }

  lemma Squeeze2Bits(o: bv32, s0: bv8, s1: bv8)
    requires s0 < 64 && s1 < 64
    ensures var w := Squeeze2(Shift(Shift(o, s0), s1));
            Bytes([s0, s1, 0, 0]).0 == Byte0(w >> 0)
  {
  }

  lemma Squeeze4Index(o: bv32, s0: bv8, s1: bv8, s2: bv8, s3: bv8)
    requires s0 < 64 && s1 < 64 && s2 < 64 && s3 < 64
    ensures var w := Squeeze4(Shift(Shift(Shift(Shift(o, s0), s1), s2), s3)); var b := Bytes([s0, s1, s2, s3]);
            b.0 == Index(w, 16) && b.1 == Index(w, 8) && b.2 == Index(w, 0)
  {
    hide Squeeze4, Shift, Bytes, Byte0;
    Squeeze4Bits(o, s0, s1, s2, s3);
  }

  lemma Squeeze3Index(o: bv32, s0: bv8, s1: bv8, s2: bv8)
    requires s0 < 64 && s1 < 64 && s2 < 64
    ensures var w := Squeeze3(Shift(Shift(Shift(o, s0), s1), s2)); var b := Bytes([s0, s1, s2, 0]);
            b.0 == Index(w, 8) && b.1 == Index(w, 0)
  {
    hide Squeeze3, Shift, Bytes, Byte0;
    Squeeze3Bits(o, s0, s1, s2);
  }

  lemma Squeeze2Index(o: bv32, s0: bv8, s1: bv8)
    requires s0 < 64 && s1 < 64
    ensures Bytes([s0, s1, 0, 0]).0 == Index(Squeeze2(Shift(Shift(o, s0), s1)), 0)
  {
    hide Squeeze2, Shift, Bytes, Byte0;
    Squeeze2Bits(o, s0, s1);
  }

  lemma FeedAt(o: bv32, pend: seq<bv8>, k: nat)
    requires k < |pend|
    ensures Feed(o, pend[..k + 1]) == Shift(Feed(o, pend[..k]), pend[k])
  {
    assert pend[..k + 1] == pend[..k] + [pend[k]];
    FeedMore(o, pend[..k], pend[k]);
  }

  lemma FeedTwo(o: bv32, pend: seq<bv8>)
    requires |pend| >= 2
    ensures Feed(o, pend[..2]) == Shift(Shift(o, pend[0]), pend[1])
  {
    assert pend[..0] == [] && Feed(o, []) == o;
    hide Feed, Shift;
    FeedAt(o, pend, 0);
    FeedAt(o, pend, 1);
  }

  lemma FeedUnfold(o: bv32, pend: seq<bv8>)
    ensures |pend| == 2 ==> Feed(o, pend) == Shift(Shift(o, pend[0]), pend[1])
    ensures |pend| == 3 ==> Feed(o, pend) == Shift(Shift(Shift(o, pend[0]), pend[1]), pend[2])
    ensures |pend| == 4 ==> Feed(o, pend) == Shift(Shift(Shift(Shift(o, pend[0]), pend[1]), pend[2]), pend[3])
  {
    hide Feed, Shift;
    assert pend[..|pend|] == pend;
    if 2 <= |pend| <= 4 {
      FeedTwo(o, pend);
      if |pend| >= 3 { FeedAt(o, pend, 2); }
      if |pend| == 4 { FeedAt(o, pend, 3); }
    }
  }

  /** Whatever earlier groups left in the accumulator, squeezing it gives the bytes of the last one. */
  lemma FourInAccumulator(o: bv32, pend: seq<bv8>)
    requires |pend| == 4 && Values(pend)
    ensures var w, b := Squeeze4(Feed(o, pend)), Bytes(pend);
            b.0 == Index(w, 16) && b.1 == Index(w, 8) && b.2 == Index(w, 0)
  {
    hide Bytes, Shift, Squeeze4, Feed, Byte0, Index;
    FeedUnfold(o, pend);
    Squeeze4Index(o, pend[0], pend[1], pend[2], pend[3]);
    assert pend == [pend[0], pend[1], pend[2], pend[3]];
  }

  lemma ThreeInAccumulator(o: bv32, pend: seq<bv8>)
    requires |pend| == 3 && Values(pend)
    ensures var w, b := Squeeze3(Feed(o, pend)), Bytes(pend + [0]);
            b.0 == Index(w, 8) && b.1 == Index(w, 0)
  {
    hide Bytes, Shift, Squeeze3, Feed, Byte0, Index;
    FeedUnfold(o, pend);
    Squeeze3Index(o, pend[0], pend[1], pend[2]);
    assert pend + [0] == [pend[0], pend[1], pend[2], 0];
  }

  lemma TwoInAccumulator(o: bv32, pend: seq<bv8>)
    requires |pend| == 2 && Values(pend)
    ensures Bytes(pend + [0, 0]).0 == Index(Squeeze2(Feed(o, pend)), 0)
  {
    hide Bytes, Shift, Squeeze2, Feed, Byte0, Index;
    FeedUnfold(o, pend);
    Squeeze2Index(o, pend[0], pend[1]);
    assert pend + [0, 0] == [pend[0], pend[1], 0, 0];
  }

  /** What was written so far, in front of the outcome for the rest of the text. */
  ghost function Written(done: seq<bv8>, rest: (seq<bv8>, bool)): (seq<bv8>, bool) { (done + rest.0, rest.1) }

  lemma WrittenMore(done: seq<bv8>, three: seq<bv8>, rest: (seq<bv8>, bool))
    ensures Written(done, (three + rest.0, rest.1)) == Written(done + three, rest)
  {
    Assoc(done, three, rest.0);
  }

  /** The branch for '='. */
  method FinishAtPad(out: array<bv8>, s: nat, b: bv32, next: bv8, ghost oldBits: bv32, ghost pend: seq<bv8>, ac: nat)
    returns (n: nat, flag: bool)
    requires |pend| == ac < 4 && Values(pend) && b == Feed(oldBits, pend)
    requires s + |AtPad(pend, next).0| <= out.Length
    modifies out
    ensures n == s + |AtPad(pend, next).0|
    ensures (out[..n], flag) == Written(old(out[..s]), AtPad(pend, next))
  {
    hide Bytes, Squeeze3, Squeeze2, Feed, Index;
    n, flag := s, false;
    if ac == 3 {
      ThreeInAccumulator(oldBits, pend);
      var b' := Squeeze3(b);
      out[n], out[n + 1] := Index(b', 8), Index(b', 0);
      n := n + 2;
    } else if ac == 2 && next == PAD {
      TwoInAccumulator(oldBits, pend);
      out[n] := Index(Squeeze2(b), 0);
      n := n + 1;
    } else {
      flag := true;
    }
    assert out[..n] == old(out[..s]) + AtPad(pend, next).0;
  }

  /** The branch for a full group. */
  method PutBytes(out: array<bv8>, s: nat, b: bv32, ghost oldBits: bv32, ghost pend: seq<bv8>)
    returns (n: nat, b': bv32)
    requires |pend| == 4 && Values(pend) && b == Feed(oldBits, pend) && s + 3 <= out.Length
    modifies out
    ensures n == s + 3
    ensures out[..n] == old(out[..s]) + [Bytes(pend).0, Bytes(pend).1, Bytes(pend).2]
  {
    hide Bytes, Squeeze4, Feed, Index;
    FourInAccumulator(oldBits, pend);
    b' := Squeeze4(b);
    out[s], out[s + 1], out[s + 2] := Index(b', 16), Index(b', 8), Index(b', 0);
    n := s + 3;
  }

  /** base64_decode. Needs room for what it decodes; the flag tells a wrong padding or length. */
  method Decode(inp: seq<bv8>, after: bv8, out: array<bv8>) returns (n: nat, flag: bool)
    requires |DecodeFrom(inp, [], after).0| <= out.Length
    modifies out
    ensures n == |DecodeFrom(inp, [], after).0|
    ensures (out[..n], flag) == DecodeFrom(inp, [], after)
  {
    hide DecodeChar, Bytes, AtPad, Shift, Feed;
    ghost var want := DecodeFrom(inp, [], after);
    ghost var pend: seq<bv8>, oldBits: bv32 := [], 0;
    var b: bv32 := 0;
    var ac := 0;
    n, flag := 0, false;
    var i := 0;
    FeedNothing(0);
    assert inp[0..] == inp && [] + want.0 == want.0;
    while i < |inp|
      invariant 0 <= i <= |inp| && 0 <= ac < 4 && n <= out.Length
      invariant |pend| == ac && Values(pend) && b == Feed(oldBits, pend)
      invariant want == Written(out[..n], DecodeFrom(inp[i..], pend, after))
      invariant !flag
    {
      ghost var s := inp[i..];
      assert s[0] == inp[i] && s[1..] == inp[i + 1..];
      var d := DecodeChar(inp[i]);
      DecodeCharRange(inp[i]);
      i := i + 1;
      if d == JUNK { continue; }
      if inp[i - 1] == PAD {
        n, flag := FinishAtPad(out, n, b, if i < |inp| then inp[i] else after, oldBits, pend, ac);
        return;
      }
      FeedMore(oldBits, pend, d);
      pend := pend + [d];
      b := Shift(b, d);
      ac := ac + 1;
      if ac == 4 {
        WrittenMore(out[..n], [Bytes(pend).0, Bytes(pend).1, Bytes(pend).2], DecodeFrom(inp[i..], [], after));
        n, b := PutBytes(out, n, b, oldBits, pend);
        ac, pend, oldBits := 0, [], b;
        FeedNothing(b);
      }
    }
    assert inp[i..] == [] && out[..n] + [] == out[..n];
    if ac != 0 { flag := true; }
  }

  lemma FeedNothing(o: bv32)
    ensures Feed(o, []) == o
  {
  }

  /** base64_encode and base64_decode together: what comes back is what went in, with flag 0. */
  method EncodeDecode(inp: seq<bv8>, after: bv8) returns (copy: seq<bv8>, flag: bool)
    ensures copy == inp && !flag
  {
    var text := new bv8[(|inp| + 2) / 3 * 4];
    var n := Encode(inp, text);
    RoundTrip(inp, after);
    var bytes := new bv8[|inp|];
    var m;
    m, flag := Decode(text[..n], after, bytes);
    copy := bytes[..m];
  }
}
