/** bitset.c and bitset.h: sets of small integers as bits of a byte array, and their text form. */
module Bitset {
  import opened CTypes
  import opened UrlText
  import opened BitGroups
  import opened UrlCodec

  class BitSet {
    var size: CInt
    var data: array?<bv8>

    /** A bitset owns the bytes its size asks for; an int holds size + 7. */
    ghost predicate Valid()
      reads this
    {
      size <= MAX_BITS && (size > 0 && data != null ==> data.Length == (size + 7) / 8)
    }

    ghost function Bytes(): (bytes: seq<bv8>)
      requires Valid()
      reads this, data
      ensures 8 * |bytes| <= MAX_BITS
    {
      if size > 0 && data != null then data[..] else []
    }

    /** All bits of the allocated bytes, those past `size` included. */
    ghost function Bits(): (t: seq<bool>)
      requires Valid()
      reads this, data
      ensures |t| <= MAX_BITS
    {
      BitsOf(Bytes())
    }

    /** bitset_safe_get */
    predicate Get(index: int)
      requires Valid()
      reads this, data
    {
      0 <= index < size && data != null && Bit(data[index / 8], index % 8)
    }

    /** No bit is on between `size` and the end of the last byte. */
    ghost predicate Clean()
      requires Valid()
      reads this, data
    {
      forall x: nat | Has(Bits(), x) :: x < size
    }

    lemma GetIsHas(x: nat)
      requires Valid()
      ensures Get(x) <==> x < size && Has(Bits(), x)
    {
    }

    /** bitset_resize */
    method Resize(newSize: CInt)
      requires Valid() && (size > 0 ==> data != null)
      modifies this
      ensures Valid()
      ensures size == if newSize > 1_000_000_000 || newSize <= old(size) || newSize <= 0 then old(size) else newSize
      ensures size != old(size) ==> fresh(data)
      ensures forall x: nat :: Has(Bits(), x) <==> old(Has(Bits(), x))
    {
      if newSize <= 0 || newSize > MAX_VALUE || newSize <= size { return; }
      var newAlloc := (newSize + 7) / 8;
      var newSet := new bv8[newAlloc](_ => 0);
      if size > 0 {
        var oldAlloc := (size + 7) / 8;
        forall k | 0 <= k < oldAlloc { newSet[k] := data[k]; }
      }
      ghost var before := Bytes();
      size, data := newSize, newSet;
      forall x: nat ensures Has(Bits(), x) <==> Has(BitsOf(before), x) {
        if x < 8 * newAlloc && x / 8 >= |before| { ZeroByte(x % 8); }
      }
    }
  }

  // ---------------------------------------------------------------- comparison

  lemma XorMask(a: bv8, b: bv8, m: bv8)
    requires m & (m - 1) == 0
    ensures (a ^ b) & m != 0 <==> ((a & m != 0) != (b & m != 0))
  {
  }

  lemma XorBit(a: bv8, b: bv8, j: nat)
    requires j < 8
    ensures Bit(a ^ b, j) <==> Bit(a, j) != Bit(b, j)
  {
    var m: bv8 := 1 << j;
    assert m & (m - 1) == 0;
    XorMask(a, b, m);
  }

  predicate SafeGet(ss: BitSet?, index: int)
    requires ss != null ==> ss.Valid()
    reads ss, if ss == null then {} else {ss.data}
  {
    ss != null && ss.Get(index)
  }

  /** bitset_is_equal */
  method IsEqual(s1: BitSet?, s2: BitSet?) returns (r: int)
    requires s1 != null ==> s1.Valid()
    requires s2 != null ==> s2.Valid()
    ensures r == if forall x :: SafeGet(s1, x) == SafeGet(s2, x) then 1 else 0
  {
    var size1: CInt, size2: CInt := 0, 0;
    var set1: array?<bv8>, set2: array?<bv8> := null, null;
    if s1 != null { size1, set1 := s1.size, s1.data; }
    if s2 != null { size2, set2 := s2.size, s2.data; }
    if size1 < 0 || set1 == null { size1 := 0; }
    if size2 < 0 || set2 == null { size2 := 0; }
    Outside(s1);
    Outside(s2);
    if size1 == 0 && size2 == 0 { return 1; }
    var minSize := if size2 < size1 then size2 else size1;
    hide SafeGet, Bit, BitSet.Valid;
    var i := CommonPart(s1, s2, minSize);
    if i < minSize { return 0; }
    if size1 > minSize {
      var k := FirstMember(s1, i);
      if k < size1 {
        assert SafeGet(s1, k) != SafeGet(s2, k);
        return 0;
      }
    } else if size2 > minSize {
      var k := FirstMember(s2, i);
      if k < size2 {
        assert SafeGet(s1, k) != SafeGet(s2, k);
        return 0;
      }
    }
    return 1;
  }

  /** The first loop: the first index below minSize at which the sets differ, or minSize. */
  method CommonPart(s1: BitSet?, s2: BitSet?, minSize: nat) returns (i: nat)
    requires s1 != null ==> s1.Valid()
    requires s2 != null ==> s2.Valid()
    requires minSize > 0 ==> s1 != null && s1.data != null && s2 != null && s2.data != null
    requires minSize > 0 ==> minSize <= s1.size && minSize <= s2.size
    ensures i <= minSize && (i < minSize ==> SafeGet(s1, i) != SafeGet(s2, i))
    ensures forall x | 0 <= x < i :: SafeGet(s1, x) == SafeGet(s2, x)
  {
    hide SafeGet, Bit;
    i := 0;
    while i < minSize
      invariant i <= minSize
      invariant forall x | 0 <= x < i :: SafeGet(s1, x) == SafeGet(s2, x)
    {
      InBytes(s1, i);
      InBytes(s2, i);
      XorBit(s1.data[i / 8], s2.data[i / 8], i % 8);
      if Bit(s1.data[i / 8] ^ s2.data[i / 8], i % 8) { break; }
      i := i + 1;
    }
  }

  /** No index outside [0, size) is a member, and none at all when there are no bytes. */
  lemma Outside(ss: BitSet?)
    requires ss != null ==> ss.Valid()
    ensures forall x | SafeGet(ss, x) :: ss != null && ss.data != null && 0 <= x < ss.size
  {
    hide Bit;
  }

  lemma InBytes(ss: BitSet, x: nat)
    requires ss.Valid() && x < ss.size && ss.data != null
    ensures x / 8 < ss.data.Length && SafeGet(ss, x) == Bit(ss.data[x / 8], x % 8)
  {
    hide Bit;
  }

  /** The first member at or above `from`, or the size: what is left of the longer set must be empty. */
  method FirstMember(ss: BitSet, from: nat) returns (i: int)
    requires ss.Valid() && ss.data != null && from <= ss.size
    ensures from <= i <= ss.size && (i < ss.size ==> SafeGet(ss, i))
    ensures forall x | from <= x < i :: !SafeGet(ss, x)
  {
    hide Bit;
    i := from;
    while i < ss.size && !Bit(ss.data[i / 8], i % 8)
      invariant from <= i <= ss.size
      invariant forall x | from <= x < i :: !SafeGet(ss, x)
    {
      InBytes(ss, i);
      i := i + 1;
    }
  }

  // ---------------------------------------------------------------- encoding

  /** get_num_len */
  method GetNumLen(val0: CInt) returns (cnt: CInt)
    ensures cnt == if val0 < 0 then 0 else |NumText(val0)|
  {
    var val := val0;
    cnt := 0;
    if val < 0 { return 0; }
    if val == 0 { return 1; }
    NumTextLength(val0);
    while val != 0
      invariant val >= 0 && 0 <= cnt <= 6
      invariant val > 0 ==> cnt + |NumText(val)| == |NumText(val0)|
      invariant val == 0 ==> cnt == |NumText(val0)|
    {
      cnt := cnt + 1;
      val := val / ENCODE_BASE;
    }
  }

  /** The bits up to the highest member of the set. */
  ghost predicate TrimmedBits(bytes: array<bv8>, t: seq<bool>)
    reads bytes
  {
    EndsSet(t) && t == Trim(BitsOf(bytes[..]))
  }

  lemma TrimmedAt(bytes: array<bv8>, t: seq<bool>, i: nat)
    requires TrimmedBits(bytes, t) && i < |t|
    ensures i / 8 < bytes.Length && t[i] == Bit(bytes[i / 8], i % 8)
  {
    assert t <= BitsOf(bytes[..]);
    assert BitsOf(bytes[..])[i] == BitAt(bytes[..], i);
  }

  lemma ByteOfMember(bytes: seq<bv8>, x: nat)
    requires Has(BitsOf(bytes), x)
    ensures x / 8 < |bytes| && bytes[x / 8] != 0 && Bit(bytes[x / 8], x % 8)
  {
    ZeroByte(x % 8);
  }

  /** The first member stands in the first byte that is not zero. */
  lemma LowestIs(bytes: seq<bv8>, i: nat, j: nat)
    requires i < |bytes| && j < 8 && Bit(bytes[i], j)
    requires forall k | 0 <= k < i :: bytes[k] == 0
    requires forall k | 0 <= k < j :: !Bit(bytes[i], k)
    ensures var t := Trim(BitsOf(bytes)); t != [] && NextSet(t, 0) == i * 8 + j
  {
    hide Bit, Trim, NextSet, BitsOf;
    ghost var b, n := BitsOf(bytes), i * 8 + j;
    BitsAt(bytes, n);
    forall x: nat | Has(b, x) ensures n <= x {
      ByteOfMember(bytes, x);
      if x / 8 == i { assert j <= x % 8; }
    }
    assert Has(Trim(b), n);
    FirstIsNextSet(Trim(b), n);
  }

  /** The last member stands in the last byte that is not zero. */
  lemma HighestIs(bytes: seq<bv8>, i: nat, j: nat)
    requires i < |bytes| && j < 8 && Bit(bytes[i], j)
    requires forall k | i < k < |bytes| :: bytes[k] == 0
    requires forall k | j < k < 8 :: !Bit(bytes[i], k)
    ensures |Trim(BitsOf(bytes))| == i * 8 + j + 1
  {
    hide Bit, Trim, BitsOf;
    ghost var b, n := BitsOf(bytes), i * 8 + j;
    BitsAt(bytes, n);
    forall x: nat | Has(b, x) ensures x <= n {
      ByteOfMember(bytes, x);
      if x / 8 == i { assert x % 8 <= j; }
    }
    TrimLast(b, n);
  }

  lemma BitsAt(bytes: seq<bv8>, x: nat)
    requires x / 8 < |bytes|
    ensures Has(BitsOf(bytes), x) <==> Bit(bytes[x / 8], x % 8)
  {
    hide Bit;
  }

  lemma NoBits(bytes: seq<bv8>)
    requires forall k | 0 <= k < |bytes| :: bytes[k] == 0
    ensures Trim(BitsOf(bytes)) == []
  {
    hide Bit, BitsOf;
    forall x: nat ensures !Has(BitsOf(bytes), x) {
      if Has(BitsOf(bytes), x) { ByteOfMember(bytes, x); }
    }
    TrimEmpty(BitsOf(bytes));
  }

  /** min_num, or -1 when no byte holds a bit. */
  method LowestMember(bytes: array<bv8>) returns (minNum: int)
    ensures var t := Trim(BitsOf(bytes[..]));
            minNum == if t == [] then -1 else NextSet(t, 0)
  {
    hide Bit, Trim, BitsOf, NextSet;
    var i := 0;
    while i < bytes.Length && bytes[i] == 0
      invariant 0 <= i <= bytes.Length
      invariant forall k | 0 <= k < i :: bytes[k] == 0
    {
      i := i + 1;
    }
    if i >= bytes.Length {
      NoBits(bytes[..]);
      return -1;
    }
    var j := 0;
    while j < 8 && !Bit(bytes[i], j)
      invariant 0 <= j <= 8
      invariant forall k | 0 <= k < j :: !Bit(bytes[i], k)
    {
      j := j + 1;
    }
    if j == 8 { NonZeroByte(bytes[i]); }
    minNum := i * 8 + j;
    LowestIs(bytes[..], i, j);
  }

  /** max_num, or -1 when no byte holds a bit. */
  method HighestMember(bytes: array<bv8>) returns (maxNum: int)
    ensures maxNum == |Trim(BitsOf(bytes[..]))| - 1
  {
    hide Bit, Trim, BitsOf;
    var i := bytes.Length - 1;
    while i >= 0 && bytes[i] == 0
      invariant -1 <= i < bytes.Length
      invariant forall k | i < k < bytes.Length :: bytes[k] == 0
    {
      i := i - 1;
    }
    if i < 0 {
      NoBits(bytes[..]);
      return -1;
    }
    var j := 7;
    while j >= 0 && !Bit(bytes[i], j)
      invariant -1 <= j < 8
      invariant forall k | j < k < 8 :: !Bit(bytes[i], k)
    {
      j := j - 1;
    }
    if j < 0 { NonZeroByte(bytes[i]); }
    maxNum := i * 8 + j;
    HighestIs(bytes[..], i, j);
  }

  /** num2 for the group that starts at cur_num; the source writes this loop out in both passes. */
  method FindGroupEnd(bytes: array<bv8>, ghost t: seq<bool>, curNum: CInt, maxNum: CInt) returns (num2: CInt)
    requires EndsSet(t) && TrimmedBits(bytes, t) && |t| == maxNum + 1 <= MAX_BITS
    requires 0 <= curNum <= maxNum
    ensures num2 == GroupEnd(t, curNum)
    ensures t[curNum] ==>
              && curNum < num2 <= maxNum + 1 && t[num2 - 1] && NoLongGap(t, curNum, num2)
              && (num2 <= maxNum ==> exists c: nat :: FiveEmpty(t, curNum, num2, c) && curNum + 6 * c + 30 <= maxNum)
  {
    hide TrimmedBits, RunEnd, NextSet, Grow, GroupEnd, NoLongGap, FiveEmpty;
    if t[curNum] { GroupEndIs(t, curNum); }
    GroupEndUnfold(t, curNum);
    num2 := SkipRun(bytes, t, curNum + 1, maxNum);
    if num2 <= maxNum {
      while true
        invariant curNum < num2 <= maxNum && !t[num2]
        invariant Grow(t, curNum, num2) == GroupEnd(t, curNum)
        decreases maxNum - num2
      {
        GrowUnfold(t, curNum, num2);
        var num3 := SkipGap(bytes, t, num2, maxNum);
        var bi1 := (num2 - 1 - curNum) / 6;
        var bi2 := (num3 - curNum) / 6;
        if bi2 - bi1 > 5 { break; }
        num2 := SkipRun(bytes, t, num3, maxNum);
        if num2 > maxNum { break; }
      }
    }
  }

  lemma GroupEndUnfold(t: seq<bool>, cur: nat)
    requires EndsSet(t) && cur < |t|
    ensures var e := RunEnd(t, cur + 1);
            GroupEnd(t, cur) == (if e == |t| then e else Grow(t, cur, e))
  {
    hide RunEnd, NextSet, TooFar;
  }

  lemma GrowUnfold(t: seq<bool>, cur: nat, e: nat)
    requires EndsSet(t) && cur < e < |t| && !t[e]
    ensures var next := NextSet(t, e);
            && next < |t|
            && Grow(t, cur, e) ==
               if TooFar(cur, e, next) then e
               else if RunEnd(t, next) == |t| then |t| else Grow(t, cur, RunEnd(t, next))
  {
    hide RunEnd, NextSet, TooFar;
    assert t[|t| - 1];
  }

  method SkipRun(bytes: array<bv8>, ghost t: seq<bool>, from: CInt, maxNum: CInt) returns (num: CInt)
    requires EndsSet(t) && TrimmedBits(bytes, t) && |t| == maxNum + 1 <= MAX_BITS
    requires 0 <= from <= maxNum + 1
    ensures num == RunEnd(t, from)
  {
    num := from;
    while num <= maxNum && (TrimmedAt(bytes, t, num); Bit(bytes[num / 8], num % 8))
      invariant from <= num <= maxNum + 1
      invariant RunEnd(t, num) == RunEnd(t, from)
    {
      num := num + 1;
    }
  }

  /** The inner "find next set bit" loop: it has no bound of its own, and stops at or before max_num. */
  method SkipGap(bytes: array<bv8>, ghost t: seq<bool>, from: CInt, maxNum: CInt) returns (num: CInt)
    requires EndsSet(t) && TrimmedBits(bytes, t) && |t| == maxNum + 1 <= MAX_BITS
    requires 0 <= from <= maxNum
    ensures num == NextSet(t, from) <= maxNum
  {
    num := from;
    TrimmedAt(bytes, t, num);
    while !Bit(bytes[num / 8], num % 8)
      invariant from <= num <= maxNum
      invariant NextSet(t, num) == NextSet(t, from)
      invariant num / 8 < bytes.Length && t[num] == Bit(bytes[num / 8], num % 8)
      decreases maxNum - num
    {
      num := num + 1;
      TrimmedAt(bytes, t, num);
    }
  }

  /** What is still to be written when the next group starts at cur_num. */
  ghost function RestText(t: seq<bool>, curNum: nat): (r: seq<bv8>)
    requires EndsSet(t) && |t| <= MAX_BITS
  {
    if curNum >= |t| then [] else (GroupsText(t, curNum); TextOf(Groups(t, curNum)))
  }

  lemma RestTextStep(t: seq<bool>, curNum: nat)
    requires EndsSet(t) && |t| <= MAX_BITS && curNum < |t|
    ensures var e := GroupEnd(t, curNum);
            && Writable(GroupOf(t, curNum, e))
            && RestText(t, curNum) ==
               GroupText(GroupOf(t, curNum, e)) + RestText(t, if e < |t| then NextSet(t, e) else e)
  {
    var e := GroupEnd(t, curNum);
    GroupsText(t, curNum);
    if e < |t| {
      GroupsText(t, NextSet(t, e));
      TextOfCons(GroupOf(t, curNum, e), Groups(t, NextSet(t, e)));
    } else {
      TextOfCons(GroupOf(t, curNum, e), []);
    }
  }

  lemma RestTextBound(t: seq<bool>, curNum: nat)
    requires EndsSet(t) && |t| <= MAX_BITS
    ensures |RestText(t, curNum)| <= MAX_VALUE
  {
    if curNum < |t| { GroupsText(t, curNum); }
  }

  lemma RestTextDone(t: seq<bool>)
    requires EndsSet(t) && |t| <= MAX_BITS
    ensures RestText(t, |t|) == []
  {
  }

  lemma GroupTextSize(t: seq<bool>, cur: nat, e: nat)
    requires cur < e <= |t| <= MAX_BITS && Writable(GroupOf(t, cur, e))
    ensures var sb := (e - cur + 5) / 6;
            |GroupText(GroupOf(t, cur, e))| ==
              1 + |NumText(cur)| + if e - cur <= 1 then 1 else 1 + |NumText(sb)| + sb
  {
  }

  /** The sizing pass. */
  method CountSize(bytes: array<bv8>, ghost t: seq<bool>, minNum: CInt, maxNum: CInt) returns (outSize: CInt)
    requires EndsSet(t) && TrimmedBits(bytes, t) && |t| == maxNum + 1 <= MAX_BITS
    requires 0 <= minNum <= maxNum
    ensures outSize == |RestText(t, minNum)| <= MAX_VALUE
  {
    hide EndsSet, GroupEnd, TrimmedBits, RestText, GroupOf, GroupText, NumText;
    RestTextBound(t, minNum);
    RestTextDone(t);
    outSize := 0;
    var curNum: CInt := minNum;
    while curNum <= maxNum
      invariant 0 <= curNum <= maxNum + 1 && outSize >= 0
      invariant outSize + |RestText(t, curNum)| == |RestText(t, minNum)|
      decreases maxNum + 1 - curNum
    {
      RestTextStep(t, curNum);
      GroupTextSize(t, curNum, GroupEnd(t, curNum));
      var num2 := FindGroupEnd(bytes, t, curNum, maxNum);
      var cnt := GetNumLen(curNum);
      outSize := outSize + cnt + 1;
      if num2 - curNum <= 1 {
        outSize := outSize + 1;
      } else {
        var sb := (num2 - curNum + 5) / 6;
        cnt := GetNumLen(sb);
        outSize := outSize + cnt + 1 + sb;
      }
      curNum := num2;
      if curNum > maxNum { break; }
      curNum := SkipGap(bytes, t, curNum, maxNum);
    }
  }

  lemma NumTextUnfold(v: nat)
    ensures |NumText(v)| == 1 <==> v < 64
    ensures NumText(v) == (if v < 64 then [] else NumText(v / 64)) + [EncodeDigit(DigitOf(v % 64))]
  {
    hide DigitOf, EncodeDigit;
    if v < 64 { assert v % 64 == v; }
  }

  lemma LastDigit(v: nat, t: seq<bv8>)
    requires NumText(v) == t
    ensures t[|t| - 1] == EncodeDigit(DigitOf(v % 64))
    ensures |t| > 1 ==> NumText(v / 64) == t[..|t| - 1]
  {
    hide DigitOf, EncodeDigit, NumText;
    NumTextUnfold(v);
  }

  /** *s++ = c */
  method PutChar(buf: array<bv8>, pos: nat, c: bv8) returns (end: nat)
    requires pos < buf.Length
    modifies buf
    ensures end == pos + 1 && buf[..end] == old(buf[..pos]) + [c]
  {
    buf[pos] := c;
    end := pos + 1;
  }

  /** Writes the digits of a number that has cnt of them in front of `end`, the last one first. */
  method PutDigits(buf: array<bv8>, val0: nat, cnt: nat, end: nat)
    requires |NumText(val0)| == cnt <= end <= buf.Length
    modifies buf
    ensures buf[end - cnt..end] == NumText(val0)
    ensures buf[..end - cnt] == old(buf[..end - cnt])
  {
    hide NumText, EncodeDigit, DigitOf;
    ghost var full := NumText(val0);
    var s, cnt2 := end, cnt;
    var val: nat := val0;
    while cnt2 != 0
      invariant 0 <= cnt2 <= cnt && s == end - cnt + cnt2
      invariant cnt2 > 0 ==> NumText(val) == full[..cnt2]
      invariant forall k | cnt2 <= k < cnt :: buf[end - cnt + k] == full[k]
      invariant forall k | 0 <= k < end - cnt :: buf[k] == old(buf[k])
    {
      LastDigit(val, full[..cnt2]);
      s := s - 1;
      buf[s] := EncodeDigit(DigitOf(val % ENCODE_BASE));
      assert full[..cnt2][..cnt2 - 1] == full[..cnt2 - 1];
      val := val / ENCODE_BASE;
      cnt2 := cnt2 - 1;
    }
  }

  /** Writes the length of a number and then its digits. */
  method PutNumber(buf: array<bv8>, pos: nat, val: CInt) returns (end: nat)
    requires val >= 0 && pos + 1 + |NumText(val)| <= buf.Length
    modifies buf
    ensures |NumText(val)| <= 6 && end == pos + |LengthPrefixed(val)|
    ensures buf[..end] == old(buf[..pos]) + LengthPrefixed(val)
  {
    hide NumText, EncodeDigit;
    NumTextLength(val);
    var cnt := GetNumLen(val);
    end := PutChar(buf, pos, EncodeDigit(DigitOf(cnt)));
    end := end + cnt;
    PutDigits(buf, val, cnt, end);
    assert buf[..end] == buf[..pos + 1] + buf[pos + 1..end];
  }

  lemma PackStep(t: seq<bool>, from: nat, to: nat)
    requires from <= to < |t| && to - from < 6
    ensures Pack(t[from..to + 1]) == if t[to] then OrBit(Pack(t[from..to]), to - from) else Pack(t[from..to])
  {
    var bs := t[from..to + 1];
    assert bs[..to - from] == t[from..to];
  }

  /** Writes the bitmap of the members in [from, num2), six to a character. */
  method PutBitmap(bytes: array<bv8>, ghost t: seq<bool>, buf: array<bv8>, pos: nat, from: CInt, num2: CInt)
    returns (end: nat)
    requires TrimmedBits(bytes, t) && 0 <= from < num2 <= |t| && bytes != buf
    requires pos + (num2 - from + 5) / 6 <= buf.Length
    modifies buf
    ensures end == pos + |Bitmap(t, from, num2)|
    ensures buf[..end] == old(buf[..pos]) + Chars(Bitmap(t, from, num2))
  {
    hide TrimmedBits, Bit, Pack, EncodeDigit, Chars, Bitmap;
    ghost var cs := Chars(Bitmap(t, from, num2));
    var val: bv8 := 0;
    var cnt: nat := 0;
    var curNum := from;
    end := pos;
    assert t[from..from] == [];
    PackNone();
    while curNum < num2
      invariant from <= curNum <= num2
      invariant end >= pos && cnt < 6 && curNum == from + 6 * (end - pos) + cnt
      invariant val == Pack(t[curNum - cnt..curNum])
      invariant TrimmedBits(bytes, t)
      invariant buf[..pos] == old(buf[..pos]) && buf[pos..end] == cs[..end - pos]
    {
      val := PackOne(bytes, t, curNum, cnt, val);
      curNum := curNum + 1;
      cnt := cnt + 1;
      if cnt == 6 {
        end := PutSextet(t, buf, pos, end, from, num2, curNum, val);
        val := 0;
        cnt := 0;
        assert t[curNum..curNum] == [];
      }
    }
    if cnt > 0 { end := PutSextet(t, buf, pos, end, from, num2, curNum, val); }
    assert cs[..end - pos] == cs && buf[..end] == buf[..pos] + buf[pos..end];
  }

  /** if (set[...] & ...) val |= 1 << cnt */
  method PackOne(bytes: array<bv8>, ghost t: seq<bool>, curNum: nat, cnt: nat, val0: bv8) returns (val: bv8)
    requires TrimmedBits(bytes, t) && cnt <= curNum < |t| && cnt < 6 && val0 == Pack(t[curNum - cnt..curNum])
    ensures val == Pack(t[curNum - cnt..curNum + 1])
  {
    hide TrimmedBits, Bit, Pack;
    TrimmedAt(bytes, t, curNum);
    PackStep(t, curNum - cnt, curNum);
    val := if Bit(bytes[curNum / 8], curNum % 8) then OrBit(val0, cnt) else val0;
  }

  /** *s++ = base64_encode_table[val], when six members are packed or the interval ends. */
  method PutSextet(ghost t: seq<bool>, buf: array<bv8>, ghost pos: nat, end0: nat, ghost from: nat, ghost num2: nat,
                   ghost to: nat, val: bv8) returns (end: nat)
    requires from < num2 <= |t| && pos <= end0 < buf.Length
    requires from + 6 * (end0 - pos) < to <= num2 && to - (from + 6 * (end0 - pos)) <= 6
    requires to == num2 || to == from + 6 * (end0 - pos) + 6
    requires val == Pack(t[from + 6 * (end0 - pos)..to])
    requires buf[pos..end0] == Chars(Bitmap(t, from, num2))[..end0 - pos]
    modifies buf
    ensures end == end0 + 1 && end - pos <= |Bitmap(t, from, num2)| && buf[..pos] == old(buf[..pos])
    ensures buf[pos..end] == Chars(Bitmap(t, from, num2))[..end - pos]
  {
    hide Pack, EncodeDigit, Chars, Bitmap;
    PutBitmapChar(t, from, num2, end0 - pos, to, val);
    end := PutChar(buf, end0, EncodeDigit(val));
    assert buf[pos..end] == buf[..end][pos..] && buf[..pos] == buf[..end][..pos];
  }

  lemma PackNone()
    ensures Pack([]) == 0
  {
  }

  lemma PutBitmapChar(t: seq<bool>, from: nat, e: nat, k: nat, to: nat, val: bv8)
    requires from < e <= |t| && from + 6 * k < to <= e && to - (from + 6 * k) <= 6
    requires to == e || to == from + 6 * k + 6
    requires val == Pack(t[from + 6 * k..to])
    ensures k < |Bitmap(t, from, e)| && val < 64
    ensures var cs := Chars(Bitmap(t, from, e)); cs[..k + 1] == cs[..k] + [EncodeDigit(val)]
  {
    hide Pack, EncodeDigit;
    assert Slice6(t, from, e, k) == t[from + 6 * k..to];
    assert Bitmap(t, from, e)[k] == val;
    assert Chars(Bitmap(t, from, e))[k] == EncodeDigit(val);
  }

  /** The filling pass: writes the groups one after the other. */
  method FillText(bytes: array<bv8>, ghost t: seq<bool>, buf: array<bv8>, minNum: CInt, maxNum: CInt)
    returns (s: nat)
    requires EndsSet(t) && TrimmedBits(bytes, t) && |t| == maxNum + 1 <= MAX_BITS && bytes != buf
    requires 0 <= minNum <= maxNum && |RestText(t, minNum)| <= buf.Length
    modifies buf
    ensures s == |RestText(t, minNum)| && buf[..s] == RestText(t, minNum)
  {
    hide EndsSet, GroupEnd, TrimmedBits, RestText, GroupOf, GroupText, Writable;
    RestTextDone(t);
    s := 0;
    var curNum: CInt := minNum;
    while curNum <= maxNum
      invariant 0 <= curNum <= maxNum + 1 && s <= buf.Length
      invariant TrimmedBits(bytes, t)
      invariant buf[..s] + RestText(t, curNum) == RestText(t, minNum)
      decreases maxNum + 1 - curNum
    {
      ghost var before, from := buf[..s], curNum;
      RestTextStep(t, curNum);
      var num2 := FindGroupEnd(bytes, t, curNum, maxNum);
      s := PutGroup(bytes, t, buf, s, curNum, num2);
      curNum := num2;
      if curNum <= maxNum { curNum := SkipGap(bytes, t, curNum, maxNum); }
      assert before + (GroupText(GroupOf(t, from, num2)) + RestText(t, curNum))
          == buf[..s] + RestText(t, curNum);
    }
  }

  /** Writes the interval [cur_num, num2). */
  method PutGroup(bytes: array<bv8>, ghost t: seq<bool>, buf: array<bv8>, pos: nat, curNum: CInt, num2: CInt)
    returns (s: nat)
    requires TrimmedBits(bytes, t) && |t| <= MAX_BITS && bytes != buf
    requires 0 <= curNum < num2 <= |t| && Writable(GroupOf(t, curNum, num2))
    requires pos + |GroupText(GroupOf(t, curNum, num2))| <= buf.Length
    modifies buf
    ensures s == pos + |GroupText(GroupOf(t, curNum, num2))|
    ensures buf[..s] == old(buf[..pos]) + GroupText(GroupOf(t, curNum, num2))
  {
    hide TrimmedBits, Bitmap, NumText, LengthPrefixed, Chars;
    GroupTextSize(t, curNum, num2);
    ghost var before := buf[..pos];
    s := PutNumber(buf, pos, curNum);
    if num2 - curNum <= 1 {
      s := PutChar(buf, s, 48);
      Assoc(before, LengthPrefixed(curNum), [48]);
    } else {
      var sb := (num2 - curNum + 5) / 6;
      s := PutNumber(buf, s, sb);
      s := PutBitmap(bytes, t, buf, s, curNum, num2);
      ghost var ds := Chars(Bitmap(t, curNum, num2));
      Assoc(before, LengthPrefixed(curNum), LengthPrefixed(sb) + ds);
      Assoc(before + LengthPrefixed(curNum), LengthPrefixed(sb), ds);
    }
  }

  ghost function BitsOrNone(ss: BitSet?): (t: seq<bool>)
    requires ss != null ==> ss.Valid()
    reads ss, if ss == null then {} else {ss.data}
    ensures |t| <= MAX_BITS
  {
    if ss == null then [] else ss.Bits()
  }

  method EmptyString() returns (str: array<bv8>)
    ensures fresh(str) && str[..] == [0]
  {
    str := new bv8[1](_ => 0);
  }

  lemma TrimmedFacts(bytes: array<bv8>)
    requires 8 * bytes.Length <= MAX_BITS
    ensures var b := BitsOf(bytes[..]); var t := Trim(b);
            && |t| <= MAX_BITS
            && (t != [] ==> EndsSet(t) && TrimmedBits(bytes, t) && NextSet(t, 0) < |t|)
            && EncodeSet(b) == if t == [] then [] else RestText(t, NextSet(t, 0))
  {
    var b := BitsOf(bytes[..]);
    var t := Trim(b);
    if t != [] { NextSetBound(t); }
    EncodeSetIsRest(b);
  }

  lemma NextSetBound(t: seq<bool>)
    requires EndsSet(t)
    ensures NextSet(t, 0) < |t|
  {
    assert t[|t| - 1];
  }

  lemma EncodeSetIsRest(b: seq<bool>)
    requires |b| <= MAX_BITS
    ensures var t := Trim(b); EncodeSet(b) == if t == [] then [] else RestText(t, NextSet(t, 0))
  {
    hide Groups, Trim;
    SetGroupsWritable(b);
    if Trim(b) != [] { NextSetBound(Trim(b)); }
  }

  /** Both passes over the bytes of a set. */
  method EncodeBytes(bytes: array<bv8>) returns (str: array<bv8>)
    requires 8 * bytes.Length <= MAX_BITS
    ensures fresh(str)
    ensures str[..] == EncodeSet(BitsOf(bytes[..])) + [0]
  {
    hide EncodeSet, RestText, Trim, BitsOf, NextSet, EndsSet, TrimmedBits;
    ghost var t := Trim(BitsOf(bytes[..]));
    TrimmedFacts(bytes);
    var minNum := LowestMember(bytes);
    if minNum < 0 {
      str := EmptyString();
    } else {
      var maxNum := HighestMember(bytes);
      var outSize := CountSize(bytes, t, minNum, maxNum);
      str := new bv8[outSize + 1];
      var s := FillText(bytes, t, str, minNum, maxNum);
      str[s] := 0;
      assert str[..] == str[..s] + [0];
    }
  }

  /** bitset_url_encode: a NUL-terminated string in a buffer of exactly the size the first pass counted. */
  method UrlEncode(ss: BitSet?) returns (str: array<bv8>)
    requires ss != null ==> ss.Valid()
    ensures fresh(str)
    ensures str[..] == EncodeSet(BitsOrNone(ss)) + [0]
  {
    if ss == null || ss.size <= 0 || ss.data == null {
      TrimEmpty(BitsOrNone(ss));
      str := EmptyString();
    } else {
      str := EncodeBytes(ss.data);
    }
  }

  // ---------------------------------------------------------------- decoding

  /** str[i], the terminating NUL included. */
  function CharAt(str: seq<bv8>, i: nat): bv8
    requires i <= |str|
  {
    if i < |str| then str[i] else 0
  }

  lemma SuffixSlice<T>(s: seq<T>, i0: nat, a: nat, b: nat)
    requires i0 <= a <= b <= |s|
    ensures s[i0..][a - i0..b - i0] == s[a..b]
  {
  }

  /** Checking pass: `cnt` digits of a number. */
  method ScanNumber(str: seq<bv8>, from: nat, cnt0: nat) returns (ok: bool, value: CInt)
    requires from + cnt0 <= |str|
    ensures ParseNum(str[from..from + cnt0], 0, DIGIT_LIMIT) == if ok then Some(value) else None
    ensures 0 <= value < 64 * DIGIT_LIMIT
  {
    ghost var want := ParseNum(str[from..from + cnt0], 0, DIGIT_LIMIT);
    value := 0;
    var i, cnt := from, cnt0;
    while cnt != 0
      invariant 0 <= cnt <= cnt0 && i + cnt == from + cnt0
      invariant 0 <= value < 64 * DIGIT_LIMIT
      invariant ParseNum(str[i..from + cnt0], value, DIGIT_LIMIT) == want
    {
      assert str[i..from + cnt0][1..] == str[i + 1..from + cnt0];
      var d := DecodeDigit(str[i]);
      if d.None? { return false, 0; }
      if value >= DIGIT_LIMIT { return false, 0; }
      value := value * ENCODE_BASE + d.value as int;
      cnt := cnt - 1;
      i := i + 1;
    }
    return true, value;
  }

  /** Checking pass: a bitmap of `count` characters; max_num ends up at or above every member. */
  method ScanBitmap(str: seq<bv8>, from: nat, count0: nat, start0: CInt, max0: CInt)
    returns (ok: bool, maxNum: CInt)
    requires from + count0 <= |str| && start0 >= 0 && max0 >= -1
    requires start0 + 6 * GoodLength(str[from..from + count0]) <= INT_MAX
    ensures maxNum >= -1
    ensures ok <==> AllDigits(str[from..from + count0])
    ensures ok ==> maxNum == DigitsMax(start0, Values(str[from..from + count0]), max0)
  {
    hide DigitMax, DecodeDigit, Values, GoodLength;
    ghost var chunk := str[from..from + count0];
    var i, count, start := from, count0, start0;
    maxNum := max0;
    while count != 0
      invariant 0 <= count <= count0 && i + count == from + count0
      invariant start == start0 + 6 * (i - from) && maxNum >= -1
      invariant AllDigits(chunk[..i - from]) && i - from <= GoodLength(chunk)
      invariant AllDigits(chunk[i - from..]) ==>
                  DigitsMax(start, Values(chunk[i - from..]), maxNum) == DigitsMax(start0, Values(chunk), max0)
    {
      ghost var rest := chunk[i - from..];
      assert rest[0] == str[i] && rest[1..] == chunk[i + 1 - from..];
      assert chunk[..i + 1 - from] == chunk[..i - from] + [str[i]];
      var d := DecodeDigit(str[i]);
      if d.None? {
        assert chunk[i - from] == str[i];
        return false, maxNum;
      }
      assert chunk[i - from] == str[i];
      if AllDigits(rest) { ValuesTail(rest); }
      maxNum := ScanDigit(d.value, start, maxNum);
      start := start + 6;
      count := count - 1;
      i := i + 1;
    }
    assert chunk[..count0] == chunk;
    return true, maxNum;
  }

  lemma ValuesTail(s: seq<bv8>)
    requires s != [] && AllDigits(s)
    ensures AllDigits(s[1..]) && Values(s)[0] == DecodeDigit(s[0]).value && Values(s)[1..] == Values(s[1..])
  {
  }

  method ScanDigit(d: bv8, start: CInt, max0: CInt) returns (maxNum: CInt)
    requires start >= 0 && start + 6 <= INT_MAX && max0 >= -1
    ensures maxNum == DigitMax(start, d, 0, max0)
  {
    hide Bit;
    maxNum := max0;
    for j := 0 to 6
      invariant maxNum >= -1 && DigitMax(start, d, j, maxNum) == DigitMax(start, d, 0, max0)
    {
      if Bit(d, j) {
        if start + j > maxNum { maxNum := start + j; }
      }
    }
  }

  /** The second half of a turn of the checking pass: what follows the start of a group. */
  method CheckTail(str: seq<bv8>, ghost i0: nat, at: nat, start: CInt, max0: CInt)
    returns (ok: bool, i: nat, maxNum: CInt)
    requires i0 + 1 < at <= |str| && start >= 0 && max0 >= -1
    requires at < |str| ==> Reach(ParseTail(str[i0..], start, at - i0, DIGIT_LIMIT)) <= INT_MAX
    ensures maxNum >= -1
    ensures if at == |str| then !ok else
            var step := ParseTail(str[i0..], start, at - i0, DIGIT_LIMIT);
            && (ok <==> step.Got?)
            && (ok ==> i == i0 + step.used <= |str| && maxNum == GroupMax(step.group, max0))
  {
    hide ParseNum, ParseBitmap, DigitsMax;
    ghost var s := str[i0..];
    i, maxNum := at, max0;
    if CharAt(str, i) < 48 || CharAt(str, i) > 57 { return false, i, maxNum; }
    assert s[at - i0] == str[at];
    if str[i] == 48 {
      if start > maxNum { maxNum := start; }
      return true, i + 1, maxNum;
    }
    var cnt: nat := DecimalValue(str[i]);
    i := i + 1;
    if i + cnt > |str| { return false, i, maxNum; }
    SuffixSlice(str, i0, i, i + cnt);
    var good, count := ScanNumber(str, i, cnt);
    if !good { return false, i, maxNum; }
    i := i + cnt;
    if count < 0 || count >= MAX_VALUE { return false, i, maxNum; }
    ok, i, maxNum := CheckBitmap(str, i0, i, count, start, maxNum);
  }

  /** The bitmap, when its length is not zero. */
  method CheckBitmap(str: seq<bv8>, ghost i0: nat, at: nat, count: nat, start: CInt, max0: CInt)
    returns (ok: bool, i: nat, maxNum: CInt)
    requires i0 <= at <= |str| && start >= 0 && max0 >= -1 && count < MAX_VALUE
    requires Reach(ParseBitmap(str[i0..], start, at - i0, count)) <= INT_MAX
    ensures maxNum >= -1
    ensures var step := ParseBitmap(str[i0..], start, at - i0, count);
            && (ok <==> step.Got?)
            && (ok ==> i == i0 + step.used <= |str| && maxNum == GroupMax(step.group, max0))
  {
    hide DigitsMax, Values, AllDigits, GoodLength;
    i, maxNum := at, max0;
    if count == 0 {
      if start > maxNum { maxNum := start; }
      return true, i, maxNum;
    }
    if i + count > |str| { return false, i, maxNum; }
    SuffixSlice(str, i0, i, i + count);
    ok, maxNum := ScanBitmap(str, i, count, start, maxNum);
    i := i + count;
  }

  /** One turn of the checking pass at position i. */
  method CheckStep(str: seq<bv8>, i0: nat, max0: CInt) returns (ok: bool, i: nat, maxNum: CInt)
    requires i0 < |str| && max0 >= -1
    requires Reach(ParseStep(str[i0..], DIGIT_LIMIT)) <= INT_MAX
    ensures maxNum >= -1
    ensures var step := ParseStep(str[i0..], DIGIT_LIMIT);
            && (ok <==> !step.Bad?)
            && (ok ==> i == i0 + Used(step) <= |str|)
            && (ok && step.Skip? ==> maxNum == max0)
            && (ok && step.Got? ==> maxNum == GroupMax(step.group, max0))
  {
    hide ParseNum, ParseTail, GroupMax;
    ghost var s := str[i0..];
    i, maxNum := i0, max0;
    assert s[0] == str[i0];
    if str[i] < 48 || str[i] > 57 { return false, i, maxNum; }
    if str[i] == 48 { return true, i + 1, maxNum; }
    var cnt: nat := DecimalValue(str[i]);
    i := i + 1;
    if i + cnt > |str| { return false, i, maxNum; }
    SuffixSlice(str, i0, i, i + cnt);
    var good, start := ScanNumber(str, i, cnt);
    if !good { return false, i, maxNum; }
    i := i + cnt;
    if start < 0 || start >= MAX_VALUE { return false, i, maxNum; }
    ok, i, maxNum := CheckTail(str, i0, i, start, maxNum);
  }

  /** set[start >> 3] |= 1 << (start & 7) */
  method TurnOn(set0: array<bv8>, start: nat)
    requires start / 8 < set0.Length
    modifies set0
    ensures forall x: nat :: Has(BitsOf(set0[..]), x) <==> old(Has(BitsOf(set0[..]), x)) || x == start
  {
    ghost var before := set0[..];
    set0[start / 8] := OrBit(set0[start / 8], start % 8);
    forall x: nat ensures Has(BitsOf(set0[..]), x) <==> Has(BitsOf(before), x) || x == start {
      if x < 8 * set0.Length {
        assert BitAt(set0[..], x) <==> BitAt(before, x) || x == start;
      }
    }
  }

  /** Unchecked pass: the digits of a number the checking pass has read before. */
  method ReadNumber(str: seq<bv8>, from: nat, cnt0: nat) returns (value: CInt)
    requires from + cnt0 <= |str| && ParseNum(str[from..from + cnt0], 0, DIGIT_LIMIT).Some?
    ensures ParseNum(str[from..from + cnt0], 0, DIGIT_LIMIT) == Some(value)
    ensures 0 <= value < 64 * DIGIT_LIMIT
  {
    ghost var want := ParseNum(str[from..from + cnt0], 0, DIGIT_LIMIT);
    value := 0;
    var i, cnt := from, cnt0;
    while cnt != 0
      invariant 0 <= cnt <= cnt0 && i + cnt == from + cnt0
      invariant 0 <= value < 64 * DIGIT_LIMIT
      invariant ParseNum(str[i..from + cnt0], value, DIGIT_LIMIT) == want
    {
      assert str[i..from + cnt0][1..] == str[i + 1..from + cnt0];
      value := value * ENCODE_BASE + DecodeDigit(str[i]).value as int;
      cnt := cnt - 1;
      i := i + 1;
    }
  }

  /** Unchecked pass: turns on the members of one bitmap character. */
  method WriteDigit(set0: array<bv8>, d: bv8, start: CInt)
    requires start >= 0 && start + 6 <= INT_MAX
    requires forall j: nat | j < 6 && Bit(d, j) :: (start + j) / 8 < set0.Length
    modifies set0
    ensures forall x: nat :: Has(BitsOf(set0[..]), x) <==>
              old(Has(BitsOf(set0[..]), x)) || (start <= x < start + 6 && Bit(d, x - start))
  {
    hide Bit, Has, BitsOf;
    for j := 0 to 6
      invariant forall x: nat :: Has(BitsOf(set0[..]), x) <==>
                  old(Has(BitsOf(set0[..]), x)) || (start <= x < start + j && Bit(d, x - start))
    {
      if Bit(d, j) { TurnOn(set0, start + j); }
    }
  }

  lemma NoMember(start: nat, x: nat)
    ensures !Member(Packed(start, Values([])), x)
  {
  }

  /** Unchecked pass: turns on the members of a bitmap. */
  method WriteBitmap(set0: array<bv8>, str: seq<bv8>, from: nat, count0: nat, start0: CInt)
    requires from + count0 <= |str| && start0 >= 0 && start0 + 6 * count0 <= INT_MAX
    requires AllDigits(str[from..from + count0])
    requires forall x: nat | Member(Packed(start0, Values(str[from..from + count0])), x) :: x / 8 < set0.Length
    modifies set0
    ensures forall x: nat :: Has(BitsOf(set0[..]), x) <==>
              old(Has(BitsOf(set0[..]), x)) || Member(Packed(start0, Values(str[from..from + count0])), x)
  {
    hide Has, BitsOf, Bit, DecodeDigit, Member, Values;
    ghost var all := Packed(start0, Values(str[from..from + count0]));
    var i, count, start := from, count0, start0;
    while count != 0
      invariant 0 <= count <= count0 && i + count == from + count0
      invariant start == start0 + 6 * (i - from)
      invariant AllDigits(str[i..from + count0])
      invariant forall x: nat | Member(Packed(start, Values(str[i..from + count0])), x) :: x / 8 < set0.Length
      invariant forall x: nat :: old(Has(BitsOf(set0[..]), x)) || Member(all, x) <==>
                  Has(BitsOf(set0[..]), x) || Member(Packed(start, Values(str[i..from + count0])), x)
    {
      ghost var rest := str[i..from + count0];
      assert rest[0] == str[i] && rest[1..] == str[i + 1..from + count0];
      ValuesTail(rest);
      forall x: nat ensures Member(Packed(start, Values(rest)), x) <==>
              (start <= x < start + 6 && Bit(Values(rest)[0], x - start)) ||
              Member(Packed(start + 6, Values(rest[1..])), x)
      {
        PackedTail(start, Values(rest), x);
      }
      var d := DecodeDigit(str[i]).value;
      assert forall j: nat | j < 6 && Bit(d, j) :: Member(Packed(start, Values(rest)), start + j);
      WriteDigit(set0, d, start);
      start := start + 6;
      count := count - 1;
      i := i + 1;
    }
    assert str[i..from + count0] == [];
    forall x: nat ensures !Member(Packed(start, Values([])), x) { NoMember(start, x); }
  }

  /** The groups of a text from position i on. */
  ghost function GroupsFrom(str: seq<bv8>, i: nat): Option<seq<Group>>
    requires i <= |str|
  {
    Parse(str[i..], DIGIT_LIMIT)
  }

  lemma GroupsFromStep(str: seq<bv8>, i: nat)
    requires i < |str|
    ensures var step := ParseStep(str[i..], DIGIT_LIMIT);
            if step.Bad? then GroupsFrom(str, i) == None
            else i + Used(step) <= |str| &&
                 GroupsFrom(str, i) == Continue(Front(step), GroupsFrom(str, i + Used(step)))
  {
    var s := str[i..];
    var step := ParseStep(s, DIGIT_LIMIT);
    if !step.Bad? {
      ParseUnfold(s, DIGIT_LIMIT);
      assert s[Used(step)..] == str[i + Used(step)..];
    }
  }

  /** Does the decoder accept the text? */
  ghost predicate Accepted(str: seq<bv8>) {
    |str| <= MAX_VALUE && Parse(str, DIGIT_LIMIT).Some?
  }

  ghost function TextMax(gs: Option<seq<Group>>, m: int): int {
    if gs.Some? then MaxOf(gs.value, m) else m
  }

  lemma TextMaxStep(step: Step, gs: Option<seq<Group>>, m: int)
    requires !step.Bad? && gs.Some?
    ensures TextMax(Continue(Front(step), gs), m) ==
            TextMax(gs, if step.Got? then GroupMax(step.group, m) else m)
  {
    assert ([] + gs.value) == gs.value;
    if step.Got? { assert ([step.group] + gs.value)[1..] == gs.value; }
  }

  /** The checking pass over the whole text. */
  method CheckText(str: seq<bv8>) returns (ok: bool, maxNum: CInt)
    requires StepsFit(str)
    ensures ok <==> Parse(str, DIGIT_LIMIT).Some?
    ensures ok ==> maxNum == MaxOf(Parse(str, DIGIT_LIMIT).value, -1)
  {
    hide ParseStep, Parse, GroupMax, Reach, Used;
    ghost var all := Parse(str, DIGIT_LIMIT);
    assert str[0..] == str;
    var i := 0;
    maxNum := -1;
    while i < |str|
      invariant 0 <= i <= |str| && maxNum >= -1
      invariant StepsFit(str[i..])
      invariant all.Some? <==> GroupsFrom(str, i).Some?
      invariant TextMax(all, -1) == (if all.Some? then TextMax(GroupsFrom(str, i), maxNum) else -1)
      decreases |str| - i
    {
      ghost var step := ParseStep(str[i..], DIGIT_LIMIT);
      GroupsFromStep(str, i);
      UsedPositive(str[i..]);
      ghost var was, at := maxNum, i;
      var good;
      good, i, maxNum := CheckStep(str, i, maxNum);
      if !good { return false, maxNum; }
      assert str[at..][Used(step)..] == str[i..];
      if all.Some? { TextMaxStep(step, GroupsFrom(str, i), was); }
    }
    ParseNothing(str, i);
    return true, maxNum;
  }

  lemma UsedPositive(s: seq<bv8>)
    requires s != []
    ensures Used(ParseStep(s, DIGIT_LIMIT)) > 0
  {
  }

  lemma ParseNothing(str: seq<bv8>, i: nat)
    requires i == |str|
    ensures GroupsFrom(str, i) == Some([])
  {
    assert str[i..] == [];
  }

  ghost predicate StepHas(step: Step, x: nat) {
    step.Got? && Member(step.group, x)
  }

  lemma NumberEnds(s: seq<bv8>)
    requires s != [] && IsDecimal(s[0]) && DecimalValue(s[0]) != 0 && ParseStep(s, DIGIT_LIMIT).Got?
    ensures var cnt := DecimalValue(s[0]);
            && 1 + cnt < |s| && ParseNum(s[1..1 + cnt], 0, DIGIT_LIMIT).Some?
            && ParseStep(s, DIGIT_LIMIT) ==
               ParseTail(s, ParseNum(s[1..1 + cnt], 0, DIGIT_LIMIT).value, 1 + cnt, DIGIT_LIMIT)
  {
  }

  /** The second half of a turn of the unchecked pass. */
  method WriteTail(set0: array<bv8>, str: seq<bv8>, ghost i0: nat, at: nat, start: CInt) returns (i: nat)
    requires i0 < at < |str| && 0 <= start < MAX_VALUE
    requires var step := ParseTail(str[i0..], start, at - i0, DIGIT_LIMIT);
             step.Got? && Reach(step) <= INT_MAX &&
             forall x: nat | Member(step.group, x) :: x / 8 < set0.Length
    modifies set0
    ensures var step := ParseTail(str[i0..], start, at - i0, DIGIT_LIMIT);
            && i == i0 + step.used <= |str|
            && forall x: nat :: Has(BitsOf(set0[..]), x) <==>
                 old(Has(BitsOf(set0[..]), x)) || Member(step.group, x)
  {
    hide ParseNum, Values, AllDigits, GoodLength, Has, BitsOf;
    ghost var s := str[i0..];
    assert s[at - i0] == str[at];
    i := at;
    assert Member(Single(start), start);
    var cnt: nat := DecimalValue(str[i]);
    i := i + 1;
    if cnt == 0 {
      TurnOn(set0, start);
      return;
    }
    SuffixSlice(str, i0, i, i + cnt);
    var count := ReadNumber(str, i, cnt);
    i := i + cnt;
    if count == 0 {
      TurnOn(set0, start);
      return;
    }
    SuffixSlice(str, i0, i, i + count);
    WriteBitmap(set0, str, i, count, start);
    i := i + count;
  }

  /** One turn of the unchecked pass at position i. */
  method WriteStep(set0: array<bv8>, str: seq<bv8>, i0: nat) returns (i: nat)
    requires i0 < |str|
    requires var step := ParseStep(str[i0..], DIGIT_LIMIT);
             !step.Bad? && Reach(step) <= INT_MAX &&
             forall x: nat | StepHas(step, x) :: x / 8 < set0.Length
    modifies set0
    ensures var step := ParseStep(str[i0..], DIGIT_LIMIT);
            && i == i0 + Used(step) <= |str|
            && forall x: nat :: Has(BitsOf(set0[..]), x) <==> old(Has(BitsOf(set0[..]), x)) || StepHas(step, x)
  {
    ghost var s := str[i0..];
    ghost var step := ParseStep(s, DIGIT_LIMIT);
    assert s[0] == str[i0];
    i := i0;
    var cnt: nat := DecimalValue(str[i]);
    i := i + 1;
    if cnt == 0 { return; }
    NumberEnds(s);
    hide ParseStep, ParseNum, ParseTail, Member, Has, BitsOf;
    SuffixSlice(str, i0, i, i + cnt);
    var start := ReadNumber(str, i, cnt);
    i := i + cnt;
    assert forall x: nat :: StepHas(step, x) <==> Member(step.group, x);
    i := WriteTail(set0, str, i0, i, start);
  }

  lemma InGroupsStep(step: Step, gs: seq<Group>, x: nat)
    requires !step.Bad?
    ensures InGroups(Front(step) + gs, x) <==> StepHas(step, x) || InGroups(gs, x)
  {
    assert [] + gs == gs;
    if step.Got? { assert ([step.group] + gs)[1..] == gs; }
  }

  /** The unchecked pass over an accepted text. */
  method WriteText(set0: array<bv8>, str: seq<bv8>)
    requires StepsFit(str) && Parse(str, DIGIT_LIMIT).Some?
    requires forall x: nat | InGroups(Parse(str, DIGIT_LIMIT).value, x) :: x / 8 < set0.Length
    requires forall x: nat :: !Has(BitsOf(set0[..]), x)
    modifies set0
    ensures forall x: nat :: Has(BitsOf(set0[..]), x) <==> InGroups(Parse(str, DIGIT_LIMIT).value, x)
  {
    hide Parse, ParseStep, Reach, Used, Has, BitsOf, StepHas, InGroups;
    ghost var all := Parse(str, DIGIT_LIMIT).value;
    assert str[0..] == str;
    var i := 0;
    while i < |str|
      invariant 0 <= i <= |str|
      invariant StepsFit(str[i..]) && GroupsFrom(str, i).Some?
      invariant forall x: nat | InGroups(GroupsFrom(str, i).value, x) :: x / 8 < set0.Length
      invariant forall x: nat :: InGroups(all, x) <==>
                  Has(BitsOf(set0[..]), x) || InGroups(GroupsFrom(str, i).value, x)
      decreases |str| - i
    {
      ghost var step := ParseStep(str[i..], DIGIT_LIMIT);
      GroupsFromStep(str, i);
      UsedPositive(str[i..]);
      ghost var next := i + Used(step);
      assert str[i..][Used(step)..] == str[next..];
      ghost var rest := GroupsFrom(str, next).value;
      forall x: nat ensures InGroups(Front(step) + rest, x) <==> StepHas(step, x) || InGroups(rest, x) {
        InGroupsStep(step, rest, x);
      }
      i := WriteStep(set0, str, i);
    }
    ParseNothing(str, i);
    forall x: nat ensures !InGroups([], x) { InNoGroups(x); }
  }

  lemma InNoGroups(x: nat)
    ensures !InGroups([], x)
  {
  }

  /** bitset_url_decode. A null `str` is read like the empty text; `ss` may be null for a mere check. */
  method UrlDecode(str: CString, ss: BitSet?) returns (r: int)
    requires FitsInt(str)
    modifies ss
    ensures r == if Accepted(str) then 0 else -1
    ensures |str| > 1_000_000_000 ==> r == -1
    ensures |str| <= 1_000_000_000 ==> (r == 0 <==> Parse(str, DIGIT_LIMIT).Some?)
    ensures ss != null ==> ss.Valid() && (ss.data != null ==> fresh(ss.data))
    ensures ss != null && r == -1 ==> ss.size == 0 && ss.data == null
    ensures ss != null && r == 0 ==>
              var gs := Parse(str, DIGIT_LIMIT).value;
              && ss.size == MaxOf(gs, -1) + 1 && (ss.data == null <==> ss.size == 0)
              && ss.Clean()
              && forall x: nat :: ss.Get(x) <==> InGroups(gs, x)
  {
    if ss != null { ss.size, ss.data := 0, null; }
    if str == [] {
      assert Parse(str, DIGIT_LIMIT) == Some([]);
      return 0;
    }
    if |str| > MAX_VALUE { return -1; }
    var ok, maxNum := CheckText(str);
    if !ok { return -1; }
    ghost var gs := Parse(str, DIGIT_LIMIT).value;
    MaxOfIsMax(gs, -1);
    if maxNum < 0 { return 0; }
    var size: CInt := maxNum + 1;
    var alloc: CInt := (size + 7) / 8;
    var bytes := new bv8[alloc](_ => 0);
    forall x: nat ensures !Has(BitsOf(bytes[..]), x) {
      if x < 8 * alloc { ZeroByte(x % 8); }
    }
    WriteText(bytes, str);
    if ss != null {
      ss.size := size;
      ss.data := bytes;
      forall x: nat ensures ss.Get(x) <==> InGroups(gs, x) {
        ss.GetIsHas(x);
      }
    }
    return 0;
  }

  // ---------------------------------------------------------------- what the two operations promise together

  /** Clean bitsets, of whatever sizes, have the same text exactly when bitset_is_equal calls them equal. */
  lemma SameTextIsEqual(s1: BitSet, s2: BitSet)
    requires s1.Valid() && s2.Valid() && s1.Clean() && s2.Clean()
    ensures EncodeSet(s1.Bits()) == EncodeSet(s2.Bits()) <==> forall x :: SafeGet(s1, x) == SafeGet(s2, x)
  {
    hide EncodeSet;
    Canonical(s1.Bits(), s2.Bits());
    CleanGet(s1);
    CleanGet(s2);
    if forall x :: SafeGet(s1, x) == SafeGet(s2, x) {
      forall x: nat ensures Has(s1.Bits(), x) <==> Has(s2.Bits(), x) {
        assert SafeGet(s1, x) == SafeGet(s2, x);
      }
    }
  }

  lemma CleanGet(ss: BitSet)
    requires ss.Valid()
    ensures ss.Clean() <==> forall x: nat :: Has(ss.Bits(), x) <==> ss.Get(x)
  {
    forall x: nat ensures ss.Get(x) <==> x < ss.size && Has(ss.Bits(), x) { ss.GetIsHas(x); }
  }

  /** A decoded copy has every bit of the original's bytes; bitset_is_equal, which looks below `size`
      only, calls the two equal exactly when the original has no stray bit in its last byte. */
  lemma DecodedCopyIsEqual(ss: BitSet, copy: BitSet)
    requires ss.Valid() && copy.Valid()
    requires forall x: nat :: copy.Get(x) <==> Has(ss.Bits(), x)
    ensures (forall x :: SafeGet(ss, x) == SafeGet(copy, x)) <==> ss.Clean()
  {
    CleanGet(ss);
    if forall x :: SafeGet(ss, x) == SafeGet(copy, x) {
      forall x: nat ensures Has(ss.Bits(), x) <==> ss.Get(x) {
        assert SafeGet(ss, x) == SafeGet(copy, x);
      }
    }
  }

  /** There are such bitsets: size 1, with bit 1 of its byte on. */
  lemma StrayBit(ss: BitSet)
    requires ss.size == 1 && ss.data != null && ss.data[..] == [2]
    ensures ss.Valid() && !ss.Clean()
  {
    assert ss.data.Length == |ss.data[..]| == 1;
    var x: nat := 1;
    BitsAt(ss.Bytes(), x);
    assert ss.Bytes()[0] == 2 && Bit(2, 1);
    assert Has(ss.Bits(), x) && x >= ss.size;
  }

  /** Encode, decode and compare. Decoding succeeds exactly when no group starts past the decoder's
      limit; the copy then has the members of the original and is equal to it when that is clean. */
  method EncodeDecodeCompare(ss: BitSet) returns (r: int, copy: BitSet, same: int)
    requires ss.Valid()
    ensures fresh(copy) && copy.Valid()
    ensures r == if StartsBelow(SetGroups(ss.Bits()), 64 * DIGIT_LIMIT) then 0 else -1
    ensures r == 0 ==> forall x: nat :: copy.Get(x) <==> Has(ss.Bits(), x)
    ensures r == 0 ==> same == if ss.Clean() then 1 else 0
  {
    hide EncodeSet, Parse, SetGroups, StartsBelow;
    ghost var bits := ss.Bits();
    var str := UrlEncode(ss);
    assert str[..str.Length - 1] == EncodeSet(bits);
    EncodedFitsInt(bits);
    RoundTrip(bits);
    copy := new BitSet;
    copy.size, copy.data := 0, null;
    r := UrlDecode(str[..str.Length - 1], copy);
    assert ss.Bits() == bits;
    same := IsEqual(ss, copy);
    if r == 0 { DecodedCopyIsEqual(ss, copy); }
  }

  /** Growing a bitset never changes its text. */
  method ResizeThenEncode(ss: BitSet, newSize: CInt) returns (str: array<bv8>)
    requires ss.Valid() && (ss.size > 0 ==> ss.data != null)
    modifies ss
    ensures fresh(str) && str[..] == old(EncodeSet(ss.Bits())) + [0]
  {
    ghost var before := ss.Bits();
    ss.Resize(newSize);
    Canonical(before, ss.Bits());
    str := UrlEncode(ss);
  }

  /** A bitset that is not equal to its own decoded copy. */
  method StrayBitIsLost() returns (same: int)
    ensures same == 0
  {
    var ss := new BitSet;
    ss.size, ss.data := 1, new bv8[1](_ => 2);
    assert ss.data[..] == [2];
    StrayBit(ss);
    ghost var bits := ss.Bits();
    NearMembersAccepted(bits);
    RoundTrip(bits);
    hide SetGroups, StartsBelow, EncodeSet, Parse;
    var r, copy;
    r, copy, same := EncodeDecodeCompare(ss);
    assert ss.Bits() == bits && !ss.Clean();
  }
}
