/** What encoding a set as text and decoding it again promise, for all sets and all texts. */
module UrlCodec {
  import opened CTypes
  import opened UrlText
  import opened BitGroups

  // ---------------------------------------------------------------- the largest member

  /** The inner loop of the checking pass: members of one bitmap character, from bit j on. */
  function DigitMax(start: nat, d: bv8, j: nat, m: int): (r: int)
    requires j <= 6
    ensures r >= m
    decreases 6 - j
  {
    if j == 6 then m
    else DigitMax(start, d, j + 1, if Bit(d, j) && start + j > m then start + j else m)
  }

  lemma {:induction false} DigitMaxBound(start: nat, d: bv8, j: nat, m: int, k: nat)
    requires j <= k < 6 && Bit(d, k)
    ensures start + k <= DigitMax(start, d, j, m)
    decreases 6 - j
  {
    hide Bit;
    var next := if Bit(d, j) && start + j > m then start + j else m;
    if j < k { DigitMaxBound(start, d, j + 1, next, k); }
  }

  lemma {:induction false} DigitMaxReached(start: nat, d: bv8, j: nat, m: int) returns (k: nat)
    requires j <= 6 && DigitMax(start, d, j, m) != m
    ensures j <= k < 6 && Bit(d, k) && DigitMax(start, d, j, m) == start + k
    decreases 6 - j
  {
    hide Bit;
    var next := if Bit(d, j) && start + j > m then start + j else m;
    if DigitMax(start, d, j + 1, next) != next {
      k := DigitMaxReached(start, d, j + 1, next);
    } else {
      k := j;
    }
  }

  function DigitsMax(start: nat, ds: seq<bv8>, m: int): (r: int)
    ensures r >= m
    decreases |ds|
  {
    if ds == [] then m else DigitsMax(start + 6, ds[1..], DigitMax(start, ds[0], 0, m))
  }

  /** `max_num` after a group. */
  function GroupMax(g: Group, m: int): (r: int)
    ensures r >= m
  {
    match g
    case Single(start) => if start > m then start else m
    case Packed(start, ds) => DigitsMax(start, ds, m)
  }

  function MaxOf(gs: seq<Group>, m: int): (r: int)
    ensures r >= m
  {
    if gs == [] then m else MaxOf(gs[1..], GroupMax(gs[0], m))
  }

  lemma PackedTail(start: nat, ds: seq<bv8>, x: nat)
    requires ds != []
    ensures Member(Packed(start, ds), x) <==>
            (start <= x < start + 6 && Bit(ds[0], x - start)) || Member(Packed(start + 6, ds[1..]), x)
  {
    if start + 6 <= x < start + 6 * |ds| {
      assert (x - start) / 6 == (x - (start + 6)) / 6 + 1;
    }
  }

  lemma {:induction false} DigitsBound(start: nat, ds: seq<bv8>, m: int, x: nat)
    requires ds != [] && Member(Packed(start, ds), x)
    ensures x <= DigitsMax(start, ds, m)
    decreases |ds|
  {
    hide DigitMax, Member, Bit;
    PackedTail(start, ds, x);
    var first := DigitMax(start, ds[0], 0, m);
    if start <= x < start + 6 && Bit(ds[0], x - start) {
      DigitMaxBound(start, ds[0], 0, m, x - start);
      assert DigitsMax(start + 6, ds[1..], first) >= first;
    } else {
      NoDigits(start + 6, ds[1..], x);
      DigitsBound(start + 6, ds[1..], first, x);
    }
  }

  lemma NoDigits(start: nat, ds: seq<bv8>, x: nat)
    requires Member(Packed(start, ds), x)
    ensures ds != []
  {
  }

  lemma {:induction false} DigitsReached(start: nat, ds: seq<bv8>, m: int) returns (x: nat)
    requires DigitsMax(start, ds, m) != m
    ensures x == DigitsMax(start, ds, m) && Member(Packed(start, ds), x)
    decreases |ds|
  {
    hide DigitMax, Member, Bit;
    var first := DigitMax(start, ds[0], 0, m);
    if DigitsMax(start + 6, ds[1..], first) == first {
      var k := DigitMaxReached(start, ds[0], 0, m);
      x := start + k;
    } else {
      x := DigitsReached(start + 6, ds[1..], first);
    }
    PackedTail(start, ds, x);
  }

  lemma DigitsMaxIsMax(start: nat, ds: seq<bv8>, m: int)
    ensures forall x: nat | Member(Packed(start, ds), x) :: x <= DigitsMax(start, ds, m)
    ensures DigitsMax(start, ds, m) == m ||
            (DigitsMax(start, ds, m) >= 0 && Member(Packed(start, ds), DigitsMax(start, ds, m)))
  {
    hide DigitsMax, Member;
    if DigitsMax(start, ds, m) != m { var _ := DigitsReached(start, ds, m); }
    forall x: nat | Member(Packed(start, ds), x) ensures x <= DigitsMax(start, ds, m) {
      NoDigits(start, ds, x);
      DigitsBound(start, ds, m, x);
    }
  }

  /** MaxOf is the largest member of the groups, or m when they have none above it. */
  lemma {:induction false} MaxOfIsMax(gs: seq<Group>, m: int)
    ensures forall x: nat | InGroups(gs, x) :: x <= MaxOf(gs, m)
    ensures MaxOf(gs, m) == m || (MaxOf(gs, m) >= 0 && InGroups(gs, MaxOf(gs, m)))
  {
    if gs == [] {
    } else {
      MaxOfIsMax(gs[1..], GroupMax(gs[0], m));
      if gs[0].Packed? { DigitsMaxIsMax(gs[0].start, gs[0].digits, m); }
    }
  }

  // ---------------------------------------------------------------- texts whose numbers fit an int

  /** How far one turn of the decoder counts its member numbers up. */
  function Reach(step: Step): nat {
    match step
    case Skip => 0
    case Got(Single(_), _) => 0
    case Got(Packed(start, ds), _) => start + 6 * |ds|
    case Bad(reach) => reach
  }

  /** No member number counted while s is read exceeds an int. */
  predicate StepsFit(s: seq<bv8>)
    decreases |s|
  {
    s == [] ||
    (var step := ParseStep(s, DIGIT_LIMIT);
     Reach(step) <= INT_MAX && (step.Bad? || StepsFit(s[Used(step)..])))
  }

  /** The length of s is an int, and decoding s stays within int arithmetic; elsewhere C does not say what
      happens. */
  predicate FitsInt(s: seq<bv8>) {
    && |s| <= INT_MAX && StepsFit(s)
    && (Parse(s, DIGIT_LIMIT).Some? ==> MaxOf(Parse(s, DIGIT_LIMIT).value, -1) + 8 <= INT_MAX)
  }

  /** Texts up to this length fit whatever they say. */
  const SAFE_LENGTH: nat := (INT_MAX - 8 - MAX_VALUE) / 6

  lemma {:induction false} ParseNumBound(s: seq<bv8>, acc: nat, limit: nat)
    requires acc < 64 * limit && ParseNum(s, acc, limit).Some?
    ensures ParseNum(s, acc, limit).value < 64 * limit
    decreases |s|
  {
    if s == [] {
    } else {
      ParseNumBound(s[1..], acc * 64 + DecodeDigit(s[0]).value as nat, limit);
    }
  }

  lemma TailReach(s: seq<bv8>, start: nat, at: nat, limit: nat)
    requires at < |s|
    ensures Reach(ParseTail(s, start, at, limit)) <= start + 6 * |s|
  {
    hide ParseNum, GoodLength, Values;
  }

  lemma StepReach(s: seq<bv8>)
    requires s != []
    ensures Reach(ParseStep(s, DIGIT_LIMIT)) < 64 * DIGIT_LIMIT + 6 * |s|
    ensures ParseStep(s, DIGIT_LIMIT).Got? ==> ParseStep(s, DIGIT_LIMIT).group.start < 64 * DIGIT_LIMIT
  {
    hide ParseTail, ParseNum;
    if IsDecimal(s[0]) {
      var cnt := DecimalValue(s[0]);
      if 0 < cnt && 1 + cnt < |s| && ParseNum(s[1..1 + cnt], 0, DIGIT_LIMIT).Some? {
        ParseNumBound(s[1..1 + cnt], 0, DIGIT_LIMIT);
        TailReach(s, ParseNum(s[1..1 + cnt], 0, DIGIT_LIMIT).value, 1 + cnt, DIGIT_LIMIT);
      }
    }
  }

  /** Members lie below the end of the group that holds them. */
  lemma {:induction false} ShortFitsInt(s: seq<bv8>, n: nat)
    requires |s| <= n <= SAFE_LENGTH
    ensures StepsFit(s)
    ensures Parse(s, DIGIT_LIMIT).Some? ==>
              forall x: nat | InGroups(Parse(s, DIGIT_LIMIT).value, x) :: x < 64 * DIGIT_LIMIT + 6 * n
    decreases |s|
  {
    hide ParseStep;
    if s == [] {
    } else {
      StepReach(s);
      var step := ParseStep(s, DIGIT_LIMIT);
      if !step.Bad? {
        ParseUnfold(s, DIGIT_LIMIT);
        ShortFitsInt(s[Used(step)..], n);
      }
    }
  }

  lemma ShortTextFitsInt(s: seq<bv8>)
    requires |s| <= SAFE_LENGTH
    ensures FitsInt(s)
  {
    ShortFitsInt(s, |s|);
    if Parse(s, DIGIT_LIMIT).Some? { MaxOfIsMax(Parse(s, DIGIT_LIMIT).value, -1); }
  }

  // ---------------------------------------------------------------- encoding a set

  /** A bitset's size is an int to which 7 can be added; so its bytes have at most this many bits. */
  const MAX_BITS: nat := INT_MAX - 7

  /** The text of a set. */
  function EncodeSet(bits: seq<bool>): (s: seq<bv8>)
    requires |bits| <= MAX_BITS
    ensures 0 !in s && |s| <= MAX_VALUE
  {
    SetGroupsWritable(bits);
    TextOf(SetGroups(bits))
  }

  lemma SetGroupsWritable(bits: seq<bool>)
    requires |bits| <= MAX_BITS
    ensures AllWritable(SetGroups(bits)) && |TextOf(SetGroups(bits))| <= MAX_VALUE
  {
    var t := Trim(bits);
    if t != [] { GroupsText(t, NextSet(t, 0)); }
  }

  /** Every group's bitmap ends at most five places past the set. */
  lemma {:induction false} GroupsReach(t: seq<bool>, cur: nat)
    requires EndsSet(t) && cur < |t|
    ensures forall k | 0 <= k < |Groups(t, cur)| ::
              var g := Groups(t, cur)[k];
              g.start < |t| && (g.Packed? ==> g.start + 6 * |g.digits| <= |t| + 5)
    decreases |t| - cur
  {
    var e := GroupEnd(t, cur);
    if e < |t| { GroupsReach(t, NextSet(t, e)); }
  }

  predicate StartsBelow(gs: seq<Group>, limit: nat) {
    forall k | 0 <= k < |gs| :: gs[k].start < limit
  }

  lemma SetGroupsReadable(bits: seq<bool>, limit: nat)
    requires |bits| <= MAX_BITS && 64 * limit > MAX_BITS / 6
    ensures AllReadable(SetGroups(bits), limit) <==> StartsBelow(SetGroups(bits), 64 * limit)
    ensures StartsBelow(SetGroups(bits), MAX_BITS)
  {
    hide Groups, Trim;
    var t := Trim(bits);
    if t != [] { GroupsReach(t, NextSet(t, 0)); }
  }

  /** Decoding accepts the text of a set exactly when no group starts at 999999936 or above, and then
      finds exactly the members of the set. */
  lemma RoundTrip(bits: seq<bool>)
    requires |bits| <= MAX_BITS
    ensures Parse(EncodeSet(bits), DIGIT_LIMIT).Some? <==> StartsBelow(SetGroups(bits), 64 * DIGIT_LIMIT)
    ensures StartsBelow(SetGroups(bits), 64 * DIGIT_LIMIT) ==>
              forall x: nat :: InGroups(Parse(EncodeSet(bits), DIGIT_LIMIT).value, x) <==> Has(bits, x)
  {
    var gs := SetGroups(bits);
    SetGroupsWritable(bits);
    SetGroupsReadable(bits, DIGIT_LIMIT);
    ParseTextOf(gs, DIGIT_LIMIT);
    forall x: nat ensures InGroups(gs, x) <==> Has(bits, x) {
      SetGroupsMembers(bits, x);
    }
  }

  /** A group starts at a member, so a set whose members all lie below the limit is always accepted. */
  lemma NearMembersAccepted(bits: seq<bool>)
    requires |bits| <= MAX_BITS
    requires forall x: nat | Has(bits, x) :: x < 999_999_936
    ensures Parse(EncodeSet(bits), DIGIT_LIMIT).Some?
  {
    forall k | 0 <= k < |SetGroups(bits)| ensures SetGroups(bits)[k].start < 64 * DIGIT_LIMIT {
      StartIsMember(bits, k);
    }
    RoundTrip(bits);
  }

  lemma {:induction false} GroupsStart(t: seq<bool>, cur: nat, k: nat)
    requires EndsSet(t) && cur < |t| && t[cur] && k < |Groups(t, cur)|
    ensures Has(t, Groups(t, cur)[k].start)
    decreases |t| - cur
  {
    hide GroupEnd, NextSet, GroupOf;
    var e := GroupEnd(t, cur);
    if k == 0 {
    } else {
      GroupsStart(t, NextSet(t, e), k - 1);
    }
  }

  lemma StartIsMember(bits: seq<bool>, k: nat)
    requires k < |SetGroups(bits)|
    ensures Has(bits, SetGroups(bits)[k].start)
  {
    var t := Trim(bits);
    GroupsStart(t, NextSet(t, 0), k);
  }

  /** The limit is real: the encoder writes the set {999999936} as a text the decoder refuses. */
  lemma FarMemberRefused()
    ensures var bits := seq(1_000_000_000, i => i == 999_999_936);
            Parse(EncodeSet(bits), DIGIT_LIMIT).None?
  {
    var bits := seq(1_000_000_000, i => i == 999_999_936);
    assert Has(bits, 999_999_936);
    SetGroupsMembers(bits, 999_999_936);
    StartIsMember(bits, 0);
    RoundTrip(bits);
  }

  /** Decoding the text of a set never leaves int arithmetic. */
  lemma EncodedFitsInt(bits: seq<bool>)
    requires |bits| <= MAX_BITS
    ensures FitsInt(EncodeSet(bits))
  {
    var gs := SetGroups(bits);
    SetGroupsWritable(bits);
    var t := Trim(bits);
    if t != [] { GroupsReach(t, NextSet(t, 0)); }
    WrittenStepsFit(gs);
    RoundTrip(bits);
    if Parse(EncodeSet(bits), DIGIT_LIMIT).Some? {
      var r := Parse(EncodeSet(bits), DIGIT_LIMIT).value;
      MaxOfIsMax(r, -1);
      assert MaxOf(r, -1) == -1 || Has(bits, MaxOf(r, -1));
    }
  }

  lemma {:induction false} WrittenStepsFit(gs: seq<Group>)
    requires AllWritable(gs)
    requires forall k | 0 <= k < |gs| && gs[k].Packed? :: gs[k].start + 6 * |gs[k].digits| <= INT_MAX
    ensures StepsFit(TextOf(gs))
  {
    if gs == [] {
    } else {
      hide ParseStep, GroupText, Readable, Writable;
      var g, rest := gs[0], TextOf(gs[1..]);
      var s := GroupText(g) + rest;
      ParseGroup(g, rest, DIGIT_LIMIT);
      assert s[|GroupText(g)|..] == rest;
      WrittenStepsFit(gs[1..]);
    }
  }

  // ---------------------------------------------------------------- canonical form

  /** Two sets have the same text exactly when they have the same members, limit or no limit. */
  lemma Canonical(a: seq<bool>, b: seq<bool>)
    requires |a| <= MAX_BITS && |b| <= MAX_BITS
    ensures EncodeSet(a) == EncodeSet(b) <==> forall x: nat :: Has(a, x) <==> Has(b, x)
  {
    if EncodeSet(a) == EncodeSet(b) {
      ReadBack(a);
      ReadBack(b);
      forall x: nat ensures Has(a, x) <==> Has(b, x) {
        SetGroupsMembers(a, x);
        SetGroupsMembers(b, x);
      }
    }
    if forall x: nat :: Has(a, x) <==> Has(b, x) { TrimUnique(a, b); }
  }

  /** Without the decoder's limit on starts, the text of every set can be read back. */
  lemma ReadBack(bits: seq<bool>)
    requires |bits| <= MAX_BITS
    ensures Parse(EncodeSet(bits), MAX_BITS) == Some(SetGroups(bits))
  {
    SetGroupsWritable(bits);
    SetGroupsReadable(bits, MAX_BITS);
    ParseTextOf(SetGroups(bits), MAX_BITS);
  }

  // ---------------------------------------------------------------- joining texts

  lemma {:induction false} InGroupsConcat(a: seq<Group>, b: seq<Group>, x: nat)
    ensures InGroups(a + b, x) <==> InGroups(a, x) || InGroups(b, x)
  {
    if a == [] {
      assert a + b == b;
    } else {
      assert (a + b)[1..] == a[1..] + b;
      InGroupsConcat(a[1..], b, x);
    }
  }

  /** Two accepted texts written one after the other are accepted and give the union of their sets. */
  lemma JoinIsUnion(a: seq<bv8>, b: seq<bv8>)
    requires Parse(a, DIGIT_LIMIT).Some? && Parse(b, DIGIT_LIMIT).Some?
    ensures Parse(a + b, DIGIT_LIMIT).Some?
    ensures forall x: nat :: InGroups(Parse(a + b, DIGIT_LIMIT).value, x) <==>
              InGroups(Parse(a, DIGIT_LIMIT).value, x) || InGroups(Parse(b, DIGIT_LIMIT).value, x)
  {
    ParseConcat(a, b, DIGIT_LIMIT);
    forall x: nat ensures InGroups(Parse(a + b, DIGIT_LIMIT).value, x) <==>
              InGroups(Parse(a, DIGIT_LIMIT).value, x) || InGroups(Parse(b, DIGIT_LIMIT).value, x)
    {
      InGroupsConcat(Parse(a, DIGIT_LIMIT).value, Parse(b, DIGIT_LIMIT).value, x);
    }
  }

  // ---------------------------------------------------------------- two texts

  /** A set of two members, 0 and n. */
  function ZeroAnd(n: nat): (t: seq<bool>) { seq(n + 1, i => i == 0 || i == n) }

  /** Its groups: one when the five characters between the members would not all be empty, else two. */
  lemma GroupsOfZeroAnd(n: nat)
    requires n > 1
    ensures var t := ZeroAnd(n);
            SetGroups(t) == if n < 36 then [GroupOf(t, 0, n + 1)] else [Single(0), Single(n)]
  {
    hide GroupOf;
    var t := ZeroAnd(n);
    assert t[n] && Trim(t) == t;
    assert Has(t, 0) && NextSet(t, 0) == 0 && RunEnd(t, 1) == 1 && NextSet(t, 1) == n;
    assert TooFar(0, 1, n) <==> n >= 36;
    OneRun(t, n);
    if n >= 36 {
      assert GroupEnd(t, 0) == 1 && GroupEnd(t, n) == n + 1;
      SingleGroup(t, 0);
      SingleGroup(t, n);
      assert Groups(t, n) == [Single(n)];
      assert Groups(t, 0) == [Single(0)] + Groups(t, n);
    } else {
      assert GroupEnd(t, 0) == n + 1;
      assert Groups(t, 0) == [GroupOf(t, 0, n + 1)];
    }
  }

  lemma OneRun(t: seq<bool>, n: nat)
    requires |t| == n + 1
    ensures RunEnd(t, n + 1) == n + 1 && (t[n] ==> RunEnd(t, n) == n + 1)
  {
  }

  lemma SingleGroup(t: seq<bool>, cur: nat)
    requires cur < |t|
    ensures GroupOf(t, cur, cur + 1) == Single(cur)
  {
  }

  /** A number of one digit, with its length in front. */
  lemma OneDigit(v: nat)
    requires v < 64
    ensures NumText(v) == [EncodeDigit(DigitOf(v))] && LengthPrefixed(v) == [49, EncodeDigit(DigitOf(v))]
  {
    assert DigitOf(1) == 1 && EncodeDigit(1) == 49;
  }

  lemma SomeDigits()
    ensures EncodeDigit(DigitOf(0)) == 48 && EncodeDigit(DigitOf(6)) == 54 && EncodeDigit(DigitOf(36)) == 97
  {
    assert DigitOf(0) == 0 && DigitOf(6) == 6 && DigitOf(36) == 36;
  }

  lemma SingleText(v: nat)
    requires v < 64
    ensures Writable(Single(v)) && GroupText(Single(v)) == [49, EncodeDigit(DigitOf(v)), 48]
  {
    hide NumText, EncodeDigit, DigitOf, LengthPrefixed;
    OneDigit(v);
  }

  /** The set {0, 36} is written as two groups, "100" and "1a0". */
  lemma TextOfTwoGroups()
    ensures EncodeSet(ZeroAnd(36)) == [49, 48, 48, 49, 97, 48]
  {
    hide SetGroups, Writable, GroupText, EncodeDigit, DigitOf;
    GroupsOfZeroAnd(36);
    SetGroupsWritable(ZeroAnd(36));
    SingleText(0);
    SingleText(36);
    SomeDigits();
    assert TextOf([]) == [] && [Single(0), Single(36)][1..] == [Single(36)] && [Single(36)][1..] == [];
    assert TextOf([Single(36)]) == [49, 97, 48];
  }

  lemma BitmapOfZeroAnd35()
    ensures Bitmap(ZeroAnd(35), 0, 36) == [1, 0, 0, 0, 0, 32]
  {
    hide Pack;
    var t, ds := ZeroAnd(35), Bitmap(ZeroAnd(35), 0, 36);
    forall k: nat | k < 6 ensures ds[k] == if k == 0 then 1 else if k == 5 then 32 else 0 {
      forall j: nat | j < 6 ensures Bit(ds[k], j) <==> (k == 0 && j == 0) || (k == 5 && j == 5) {
        BitmapBit(t, 0, 36, k, j);
      }
      OneBit(ds[k]);
    }
  }

  lemma OneBit(d: bv8)
    requires d < 64
    ensures (forall j: nat | j < 6 :: !Bit(d, j)) ==> d == 0
    ensures (forall j: nat | j < 6 :: Bit(d, j) <==> j == 0) ==> d == 1
    ensures (forall j: nat | j < 6 :: Bit(d, j) <==> j == 5) ==> d == 32
  {
    if forall j: nat | j < 6 :: !Bit(d, j) { BelowSix(d); }
    if forall j: nat | j < 6 :: Bit(d, j) <==> j == 0 { BelowSix(d); }
    if forall j: nat | j < 6 :: Bit(d, j) <==> j == 5 { BelowSix(d); }
  }

  lemma BelowSix(d: bv8)
    requires d < 64
    ensures !Bit(d, 0) && !Bit(d, 1) && !Bit(d, 2) && !Bit(d, 3) && !Bit(d, 4) && !Bit(d, 5) ==> d == 0
    ensures Bit(d, 0) && !Bit(d, 1) && !Bit(d, 2) && !Bit(d, 3) && !Bit(d, 4) && !Bit(d, 5) ==> d == 1
    ensures !Bit(d, 0) && !Bit(d, 1) && !Bit(d, 2) && !Bit(d, 3) && !Bit(d, 4) && Bit(d, 5) ==> d == 32
  {
  }

  lemma CharsOfSix()
    ensures Chars([1, 0, 0, 0, 0, 32]) == [49, 48, 48, 48, 48, 87]
  {
    assert EncodeDigit(1) == 49 && EncodeDigit(0) == 48 && EncodeDigit(32) == 87;
  }

  /** The set {0, 35} is written as one group, "10" and "16" and six characters. */
  lemma TextOfOneGroup()
    ensures EncodeSet(ZeroAnd(35)) == [49, 48, 49, 54, 49, 48, 48, 48, 48, 87]
  {
    hide SetGroups, Writable, Bitmap, NumText, EncodeDigit, DigitOf, LengthPrefixed, Chars;
    GroupsOfZeroAnd(35);
    SetGroupsWritable(ZeroAnd(35));
    BitmapOfZeroAnd35();
    CharsOfSix();
    OneDigit(0);
    OneDigit(6);
    SomeDigits();
    var g := Packed(0, [1, 0, 0, 0, 0, 32]);
    assert TextOf([]) == [] && [g][1..] == [];
    assert GroupText(g) == [49, 48, 49, 54, 49, 48, 48, 48, 48, 87];
  }
}
