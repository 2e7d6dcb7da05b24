/** The subject of a clarification: clar_add_record cuts long ones without breaking a UTF-8 character. */
module ClarSubject {
  import opened CTypes

  const CLAR_ENTRY_SUBJ_SIZE := 32

  // ---------------------------------------------------------------- UTF-8: section 4 of RFC 3629

  predicate Tail(b: bv8) { 0x80 <= b <= 0xBF }

  /** The length of the character in front of s, or 0 when there is none. */
  function CharLen(s: seq<bv8>): (n: nat)
    ensures n <= |s| && n <= 4
  {
    if s == [] then 0
    else if s[0] <= 0x7F then 1
    else if |s| < 2 || !Tail(s[1]) then 0
    else if 0xC2 <= s[0] <= 0xDF then 2
    else if |s| < 3 || !Tail(s[2]) then 0
    else if s[0] == 0xE0 then if 0xA0 <= s[1] then 3 else 0
    else if s[0] == 0xED then if s[1] <= 0x9F then 3 else 0
    else if 0xE1 <= s[0] <= 0xEF then 3
    else if |s| < 4 || !Tail(s[3]) then 0
    else if s[0] == 0xF0 then if 0x90 <= s[1] then 4 else 0
    else if s[0] == 0xF4 then if s[1] <= 0x8F then 4 else 0
    else if 0xF1 <= s[0] <= 0xF3 then 4
    else 0
  }

  predicate ValidUtf8(s: seq<bv8>)
    decreases |s|
  {
    s == [] || (CharLen(s) > 0 && ValidUtf8(s[CharLen(s)..]))
  }

  /** A character stays a character when something else follows or less follows it, but not when its own
      end is missing; only its first byte is not a tail byte. */
  lemma CharOfPrefix(s: seq<bv8>, j: nat)
    requires CharLen(s) > 0 && j <= |s|
    ensures !Tail(s[0]) && forall k | 0 < k < CharLen(s) :: Tail(s[k])
    ensures CharLen(s[..j]) == if j < CharLen(s) then 0 else CharLen(s)
  {
  }

  /** Inside valid text, the character boundaries are the places where no tail byte stands. */
  lemma {:induction false} Boundary(s: seq<bv8>, j: nat)
    requires ValidUtf8(s) && j < |s|
    ensures ValidUtf8(s[..j]) <==> !Tail(s[j])
    decreases |s|
  {
    var n := CharLen(s);
    CharOfPrefix(s, j);
    if j >= n {
      Boundary(s[n..], j - n);
      assert s[..j][n..] == s[n..][..j - n];
    }
    hide CharLen, Tail;
  }

  lemma {:induction false} ValidConcat(a: seq<bv8>, b: seq<bv8>)
    requires ValidUtf8(a) && ValidUtf8(b)
    ensures ValidUtf8(a + b)
    decreases |a|
  {
    if a == [] {
      assert a + b == b;
    } else {
      hide CharLen;
      SameChar(a, b);
      SuffixOfConcat(a, b, CharLen(a));
      ValidConcat(a[CharLen(a)..], b);
    }
  }

  lemma SameChar(a: seq<bv8>, b: seq<bv8>)
    requires CharLen(a) > 0
    ensures CharLen(a + b) == CharLen(a)
  {
  }

  // ---------------------------------------------------------------- the cut

  const DOTS: seq<bv8> := [46, 46, 46]

  /** The first j bytes are the longest whole-character prefix of at most 28 bytes. */
  ghost predicate LongestWhole(subj: seq<bv8>, j: nat)
    requires |subj| >= CLAR_ENTRY_SUBJ_SIZE
  {
    j <= 28 && ValidUtf8(subj[..j]) && forall k | j < k <= 28 :: !ValidUtf8(subj[..k])
  }

  /** The byte at j, or the nearest one to its left that is no tail byte (or the first byte). */
  function LastLead(subj: seq<bv8>, j: nat): (k: nat)
    requires j < |subj|
    ensures k <= j && (k == 0 || !Tail(subj[k])) && forall i | k < i <= j :: Tail(subj[i])
  {
    if j == 0 || !Tail(subj[j]) then j else LastLead(subj, j - 1)
  }

  /** What is stored for a subject. */
  function Stored(subj: CString, utf8Mode: bool): (t: CString)
    ensures |t| < CLAR_ENTRY_SUBJ_SIZE
  {
    if |subj| < CLAR_ENTRY_SUBJ_SIZE then subj
    else subj[..if utf8Mode then LastLead(subj, 28) else 28] + DOTS
  }

  /** A subject that is valid UTF-8 stays valid, keeping as many whole characters as fit in front of the dots. */
  lemma StoredKeepsCharacters(subj: CString)
    requires ValidUtf8(subj)
    ensures ValidUtf8(Stored(subj, true))
    ensures |subj| >= CLAR_ENTRY_SUBJ_SIZE ==>
              exists j: nat :: LongestWhole(subj, j) && Stored(subj, true) == subj[..j] + DOTS
  {
    if |subj| >= CLAR_ENTRY_SUBJ_SIZE { LongestPrefix(subj, LastLead(subj, 28)); }
  }

  /** Where the cut starts: at 28, or further left until a byte that is no tail byte. */
  method CutAt(subj: seq<bv8>, utf8Mode: bool) returns (j: nat)
    requires |subj| >= CLAR_ENTRY_SUBJ_SIZE
    ensures j == if utf8Mode then LastLead(subj, 28) else 28
  {
    var i := CLAR_ENTRY_SUBJ_SIZE - 4;
    if utf8Mode {
      while i >= 0 && 0x80 <= subj[i] && subj[i] <= 0xBF
        invariant -1 <= i <= 28 && LastLead(subj, 28) == if i < 0 then 0 else LastLead(subj, i)
      {
        i := i - 1;
      }
      if i < 0 { i := 0; }
    }
    j := i;
  }

  /** Cut at j, which is 28 or lies further left behind nothing but continuation bytes, and three dots. */
  predicate DottedAt(subj: seq<bv8>, j: int, stored: seq<bv8>)
    requires |subj| >= 32
  {
    && 0 <= j <= 28 && stored == subj[..j] + [46, 46, 46]
    && (j == 0 || subj[j] < 0x80 || subj[j] > 0xBF) && forall k | j < k <= 28 :: 0x80 <= subj[k] <= 0xBF
  }

  /** What clar_add_record stores for a subject: its bytes, without the terminating NUL. */
  method StoredSubject(subj: CString, utf8Mode: bool) returns (stored: CString)
    ensures stored == Stored(subj, utf8Mode)
    ensures |subj| < 32 ==> stored == subj
    ensures |subj| >= 32 && !utf8Mode ==> stored == subj[..28] + [46, 46, 46]
    ensures |subj| >= 32 && utf8Mode ==> exists j :: DottedAt(subj, j, stored)
  {
    if |subj| < CLAR_ENTRY_SUBJ_SIZE { return subj; }
    var j := CutAt(subj, utf8Mode);
    stored := PutDots(subj, j);
    if utf8Mode { assert DottedAt(subj, j, stored); }
  }

  /** Three dots and a NUL over the copied bytes, from position j on. */
  method PutDots(subj: CString, j: nat) returns (stored: seq<bv8>)
    requires |subj| >= CLAR_ENTRY_SUBJ_SIZE && j <= 28
    ensures stored == subj[..j] + DOTS && 0 !in stored
  {
    var subj2 := new bv8[CLAR_ENTRY_SUBJ_SIZE];
    forall k | 0 <= k < CLAR_ENTRY_SUBJ_SIZE { subj2[k] := subj[k]; }
    subj2[j], subj2[j + 1], subj2[j + 2], subj2[j + 3] := 46, 46, 46, 0;
    stored := subj2[..j + 3];
    assert stored == subj[..j] + DOTS;
  }

  /** When every byte between j and 28 is a tail byte and byte j is not (or j is 0), cutting at j keeps whole
      characters, as many as fit. */
  lemma LongestPrefix(subj: seq<bv8>, j: nat)
    requires ValidUtf8(subj) && |subj| >= CLAR_ENTRY_SUBJ_SIZE && j <= 28
    requires forall k | j < k <= 28 :: Tail(subj[k])
    requires j == 0 || !Tail(subj[j])
    ensures LongestWhole(subj, j) && ValidUtf8(subj[..j] + DOTS)
  {
    CharOfPrefix(subj, |subj|);
    Boundary(subj, j);
    forall k | j < k <= 28 ensures !ValidUtf8(subj[..k]) { Boundary(subj, k); }
    assert DOTS[1..] == [46, 46] && DOTS[1..][1..] == [46] && DOTS[1..][1..][1..] == [];
    ValidConcat(subj[..j], DOTS);
  }
}
