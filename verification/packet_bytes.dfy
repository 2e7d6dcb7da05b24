/** Bytes of the binary packets: little-endian words, 16-byte alignment, zero padding. */
module PacketBytes {
  import opened CTypes

  type Byte = x: int | 0 <= x < 256
  type U32 = x: int | 0 <= x < 0x1_0000_0000
  type U64 = x: int | 0 <= x < 0x1_0000_0000_0000_0000

  /** The stored form of an int, and back. */
  function Unsigned(v: CInt): U32 { if v < 0 then v + 0x1_0000_0000 else v }

  function Signed(u: U32): CInt { if u > INT_MAX then u - 0x1_0000_0000 else u }

  lemma SignedUnsigned(v: CInt)
    ensures Signed(Unsigned(v)) == v
  {
  }

  lemma UnsignedSigned(u: U32)
    ensures Unsigned(Signed(u)) == u
  {
  }

  function Low(v: U64): U32 { v % 0x1_0000_0000 }

  function High(v: U64): U32 { v / 0x1_0000_0000 }

  function Join(low: U32, high: U32): U64 { high * 0x1_0000_0000 + low }

  lemma JoinParts(v: U64)
    ensures Join(Low(v), High(v)) == v
  {
  }

  lemma PartsOfJoin(low: U32, high: U32)
    ensures Low(Join(low, high)) == low && High(Join(low, high)) == high
  {
  }

  // ---------------------------------------------------------------- words

  /** Byte j of a word, the lowest first. */
  function WordByte(w: U32, j: nat): Byte
    requires j < 4
  {
    if j == 0 then w % 0x100
    else if j == 1 then w / 0x100 % 0x100
    else if j == 2 then w / 0x100 / 0x100 % 0x100
    else w / 0x100 / 0x100 / 0x100
  }

  function Word(b0: Byte, b1: Byte, b2: Byte, b3: Byte): U32 {
    b0 + 0x100 * b1 + 0x1_0000 * b2 + 0x100_0000 * b3
  }

  /** The bytes of an array of words. */
  function Words(ws: seq<U32>): (bs: seq<Byte>)
    ensures |bs| == 4 * |ws|
  {
    seq(4 * |ws|, i requires 0 <= i < 4 * |ws| => WordByte(ws[i / 4], i % 4))
  }

  /** The words that whole groups of four bytes make up. */
  function WordsOf(bs: seq<Byte>): (ws: seq<U32>)
    ensures |ws| == |bs| / 4
  {
    seq(|bs| / 4, k requires 0 <= k < |bs| / 4 => Word(bs[4 * k], bs[4 * k + 1], bs[4 * k + 2], bs[4 * k + 3]))
  }

  lemma WordOfBytes(w: U32)
    ensures Word(WordByte(w, 0), WordByte(w, 1), WordByte(w, 2), WordByte(w, 3)) == w
  {
  }

  lemma BytesOfWord(b0: Byte, b1: Byte, b2: Byte, b3: Byte, j: nat)
    requires j < 4
    ensures WordByte(Word(b0, b1, b2, b3), j) ==
            if j == 0 then b0 else if j == 1 then b1 else if j == 2 then b2 else b3
  {
    var w := Word(b0, b1, b2, b3);
    assert w / 0x100 == b1 + 0x100 * b2 + 0x1_0000 * b3;
    assert w / 0x100 / 0x100 == b2 + 0x100 * b3;
  }

  lemma WordsByte(ws: seq<U32>, k: nat, j: nat)
    requires k < |ws| && j < 4
    ensures Words(ws)[4 * k + j] == WordByte(ws[k], j)
  {
    assert (4 * k + j) / 4 == k && (4 * k + j) % 4 == j;
  }

  /** The four bytes of a word, the lowest first. */
  lemma LittleEndian(ws: seq<U32>, k: nat)
    requires k < |ws|
    ensures var b := Words(ws);
            b[4 * k] as int + 0x100 * (b[4 * k + 1] as int) + 0x1_0000 * (b[4 * k + 2] as int)
              + 0x100_0000 * (b[4 * k + 3] as int) == ws[k]
  {
    hide WordByte, Words;
    WordsByte(ws, k, 0);
    WordsByte(ws, k, 1);
    WordsByte(ws, k, 2);
    WordsByte(ws, k, 3);
    WordOfBytes(ws[k]);
  }

  /** An int is stored as the word that is congruent to it. */
  lemma TwosComplement(v: CInt)
    ensures (Unsigned(v) - v) % 0x1_0000_0000 == 0
  {
  }

  lemma WordsRead(ws: seq<U32>)
    ensures WordsOf(Words(ws)) == ws
  {
    hide WordByte, Word, Words;
    forall k | 0 <= k < |ws| ensures WordsOf(Words(ws))[k] == ws[k] {
      WordsByte(ws, k, 0);
      WordsByte(ws, k, 1);
      WordsByte(ws, k, 2);
      WordsByte(ws, k, 3);
      WordOfBytes(ws[k]);
    }
  }

  lemma WordsWritten(bs: seq<Byte>)
    requires |bs| % 4 == 0
    ensures Words(WordsOf(bs)) == bs
  {
    var ws := WordsOf(bs);
    forall i | 0 <= i < |bs| ensures Words(ws)[i] == bs[i] {
      hide WordByte, Word;
      var k := i / 4;
      BytesOfWord(bs[4 * k], bs[4 * k + 1], bs[4 * k + 2], bs[4 * k + 3], i % 4);
    }
  }

  // ---------------------------------------------------------------- reading a packet byte by byte

  /** The word at position a. */
  function WordAt(p: seq<Byte>, a: nat): U32
    requires a + 4 <= |p|
  {
    p[a] as int + 0x100 * (p[a + 1] as int) + 0x1_0000 * (p[a + 2] as int) + 0x100_0000 * (p[a + 3] as int)
  }

  function IntAt(p: seq<Byte>, a: nat): CInt
    requires a + 4 <= |p|
  {
    if WordAt(p, a) <= INT_MAX then WordAt(p, a) else WordAt(p, a) - 0x1_0000_0000
  }

  function LongAt(p: seq<Byte>, a: nat): U64
    requires a + 8 <= |p|
  {
    WordAt(p, a) + 0x1_0000_0000 * WordAt(p, a + 4)
  }

  /** A multiple of 16, and the smallest that is not below n. */
  function Up16(n: nat): (r: nat)
    ensures n <= r < n + 16 && r % 16 == 0
  {
    (n + 15) / 16 * 16
  }

  // ---------------------------------------------------------------- alignment

  /** pkt_bin_align */
  function Align(n: nat): (r: nat)
    ensures n <= r < n + 16 && r % 16 == 0
    ensures n % 16 == 0 ==> r == n
  {
    (n + 15) / 16 * 16
  }

  lemma AlignZero()
    ensures Align(0) == 0
  {
  }

  lemma AlignSum(m: nat, n: nat)
    requires m % 16 == 0
    ensures Align(m + n) == m + Align(n)
  {
  }

  lemma AlignBound(n: nat, end: nat)
    requires n <= end && end % 16 == 0
    ensures Align(n) <= end
  {
  }

  lemma Mod16Sum(m: nat, n: nat)
    requires m % 16 == 0 && n % 16 == 0
    ensures (m + n) % 16 == 0
  {
  }

  /** Bytes padded with zeros to the next 16-byte boundary. */
  function Padded(s: seq<Byte>): (t: seq<Byte>)
    ensures |t| == Align(|s|) && |t| % 16 == 0 && t[..|s|] == s
  {
    s + Fill<Byte>(Align(|s|) - |s|, 0)
  }

  lemma Assoc4<T>(a: seq<T>, b: seq<T>, c: seq<T>, d: seq<T>)
    ensures (a + b) + c + d == a + (b + (c + d))
  {
  }

  predicate ZeroAt(p: seq<Byte>, from: nat, to: nat)
    requires from <= to <= |p|
  {
    forall k | from <= k < to :: p[k] == 0
  }

  /** t is the C string in the buffer s. */
  predicate CutAtNul(s: seq<Byte>, t: seq<Byte>) { t <= s && 0 !in t && (|t| < |s| ==> s[|t|] == 0) }

  lemma CutIs(s: seq<Byte>)
    ensures CutAtNul(s, CStr<Byte>(s, 0))
  {
  }

  // ---------------------------------------------------------------- lists of strings

  function Concat(ss: seq<seq<Byte>>): seq<Byte> {
    if ss == [] then [] else ss[0] + Concat(ss[1..])
  }

  /** sum of lengths */
  function Total(ns: seq<nat>): nat {
    if ns == [] then 0 else ns[0] + Total(ns[1..])
  }

  function Lengths(ss: seq<seq<Byte>>): (ns: seq<nat>)
    ensures |ns| == |ss|
  {
    seq(|ss|, k requires 0 <= k < |ss| => |ss[k]|)
  }
}
