/** How bitset.c cuts a set of bits into groups, and what the groups and their text say about the set. */
module BitGroups {
  import opened CTypes
  import opened UrlText

  // ---------------------------------------------------------------- bits of a byte array

  /** All bits of the allocated bytes, lowest first. */
  function BitsOf(bytes: seq<bv8>): (t: seq<bool>)
    ensures |t| == 8 * |bytes|
  {
    seq(8 * |bytes|, i requires 0 <= i < 8 * |bytes| => BitAt(bytes, i))
  }

  predicate Has(t: seq<bool>, x: nat) { x < |t| && t[x] }

  /** The bits up to the highest one that is on. */
  function Trim(t: seq<bool>): (r: seq<bool>)
    ensures r <= t && (r == [] || r[|r| - 1])
    ensures forall x: nat :: Has(r, x) <==> Has(t, x)
  {
    if t == [] || t[|t| - 1] then t
    else
      var r := Trim(t[..|t| - 1]);
      assert forall x: nat :: Has(t[..|t| - 1], x) <==> Has(t, x);
      r
  }

  /** Trimmed sets with the same members are the same sequence. */
  lemma TrimUnique(a: seq<bool>, b: seq<bool>)
    requires forall x: nat :: Has(a, x) <==> Has(b, x)
    ensures Trim(a) == Trim(b)
  {
    var s, t := Trim(a), Trim(b);
    assert forall x: nat :: Has(s, x) <==> Has(t, x);
    if s != [] { assert Has(s, |s| - 1); }
    if t != [] { assert Has(t, |t| - 1); }
    assert |s| == |t|;
    forall i | 0 <= i < |s| ensures s[i] == t[i] {
      assert Has(s, i) <==> Has(t, i);
    }
  }

  lemma {:induction false} TrimEmpty(t: seq<bool>)
    requires forall x: nat :: !Has(t, x)
    ensures Trim(t) == []
  {
    if t == [] {
    } else {
      assert !Has(t, |t| - 1);
      var front := t[..|t| - 1];
      assert forall x: nat :: Has(front, x) ==> Has(t, x);
      TrimEmpty(front);
    }
  }

  lemma TrimLast(t: seq<bool>, n: nat)
    requires Has(t, n) && forall x: nat | Has(t, x) :: x <= n
    ensures |Trim(t)| == n + 1
  {
    var r := Trim(t);
    assert Has(r, n) && Has(r, |r| - 1);
  }

  // ---------------------------------------------------------------- runs and gaps

  /** The end of the run of members that starts at i. */
  function RunEnd(t: seq<bool>, i: nat): (e: nat)
    requires i <= |t|
    ensures i <= e <= |t| && (e < |t| ==> !t[e])
    ensures forall k | i <= k < e :: t[k]
    decreases |t| - i
  {
    if i < |t| && t[i] then RunEnd(t, i + 1) else i
  }

  /** The first member at or above i. */
  function NextSet(t: seq<bool>, i: nat): (e: nat)
    requires i <= |t|
    ensures i <= e <= |t| && (e < |t| ==> t[e])
    ensures forall k | i <= k < e :: !t[k]
    decreases |t| - i
  {
    if i < |t| && !t[i] then NextSet(t, i + 1) else i
  }

  lemma FirstIsNextSet(t: seq<bool>, n: nat)
    requires Has(t, n) && forall x: nat | Has(t, x) :: n <= x
    ensures NextSet(t, 0) == n
  {
    assert NextSet(t, 0) <= n;
    assert Has(t, NextSet(t, 0));
  }

  predicate EndsSet(t: seq<bool>) { t != [] && t[|t| - 1] }

  /** The gap [e, next) ends the group that starts at cur. */
  predicate TooFar(cur: nat, e: nat, next: nat)
    requires cur < e <= next
  {
    (next - cur) / 6 - (e - 1 - cur) / 6 > 5
  }

  /** The end of the group that starts at cur and is known to reach e. */
  function Grow(t: seq<bool>, cur: nat, e: nat): (r: nat)
    requires EndsSet(t) && cur < e <= |t| && (e < |t| ==> !t[e])
    ensures e <= r <= |t| && (r < |t| ==> !t[r])
    ensures r < |t| ==> TooFar(cur, r, NextSet(t, r))
    decreases |t| - e
  {
    if e == |t| || TooFar(cur, e, NextSet(t, e)) then e
    else Grow(t, cur, RunEnd(t, NextSet(t, e)))
  }

  function GroupEnd(t: seq<bool>, cur: nat): (e: nat)
    requires EndsSet(t) && cur < |t|
    ensures cur < e <= |t| && (e < |t| ==> TooFar(cur, e, NextSet(t, e)))
  {
    Grow(t, cur, RunEnd(t, cur + 1))
  }

  /** A member in every five consecutive characters that a bitmap from cur to e would have. */
  ghost predicate NoLongGap(t: seq<bool>, cur: nat, e: nat) {
    forall i: nat | cur + 6 * i + 30 <= e :: HasIn(t, cur + 6 * i, cur + 6 * i + 30)
  }

  predicate HasIn(t: seq<bool>, a: nat, b: nat) { exists x | a <= x < b :: Has(t, x) }

  lemma NoLongGapStep(t: seq<bool>, cur: nat, e: nat)
    requires EndsSet(t) && cur < e < |t| && !t[e] && t[e - 1] && NoLongGap(t, cur, e)
    requires !TooFar(cur, e, NextSet(t, e))
    ensures var next := NextSet(t, e); next < |t| && NoLongGap(t, cur, RunEnd(t, next))
  {
    assert t[|t| - 1];
    var next := NextSet(t, e);
    var r := RunEnd(t, next);
    forall i: nat | cur + 6 * i + 30 <= r ensures HasIn(t, cur + 6 * i, cur + 6 * i + 30) {
      var a := cur + 6 * i;
      if a + 30 <= e {
      } else if a <= e - 1 {
        assert Has(t, e - 1);
      } else {
        assert a + 30 > next;
        assert Has(t, if a < next then next else a);
      }
    }
  }

  lemma {:induction false} GrowHasNoLongGap(t: seq<bool>, cur: nat, e: nat)
    requires EndsSet(t) && cur < e <= |t| && (e < |t| ==> !t[e]) && t[e - 1] && NoLongGap(t, cur, e)
    ensures t[Grow(t, cur, e) - 1] && NoLongGap(t, cur, Grow(t, cur, e))
    decreases |t| - e
  {
    if e == |t| || TooFar(cur, e, NextSet(t, e)) {
    } else {
      NoLongGapStep(t, cur, e);
      hide NoLongGap, TooFar;
      GrowHasNoLongGap(t, cur, RunEnd(t, NextSet(t, e)));
    }
  }

  /** Where a group ends, told by the bitmap that would go on: inside the group it never has five characters of
      zeros, and behind the last member it would have five of them in front of the next one. */
  lemma GroupEndIs(t: seq<bool>, cur: nat)
    requires EndsSet(t) && cur < |t| && t[cur]
    ensures var e := GroupEnd(t, cur);
            && t[e - 1] && NoLongGap(t, cur, e)
            && (e < |t| ==> exists c: nat :: FiveEmpty(t, cur, e, c) && cur + 6 * c + 30 < |t|)
  {
    var run := RunEnd(t, cur + 1);
    assert NoLongGap(t, cur, run) by {
      forall i: nat | cur + 6 * i + 30 <= run ensures HasIn(t, cur + 6 * i, cur + 6 * i + 30) {
        assert Has(t, cur + 6 * i);
      }
    }
    GrowHasNoLongGap(t, cur, run);
    hide NoLongGap, HasIn;
    var e := GroupEnd(t, cur);
    if e < |t| {
      assert t[|t| - 1];
      var c := (e - 1 - cur) / 6 + 1;
      assert cur + 6 * c + 30 <= NextSet(t, e);
      assert FiveEmpty(t, cur, e, c);
    }
  }

  /** Characters c to c + 4 of a bitmap from cur on lie behind e and are empty. */
  predicate FiveEmpty(t: seq<bool>, cur: nat, e: nat, c: nat) {
    e <= cur + 6 * c && forall x | e <= x < cur + 6 * c + 30 :: !Has(t, x)
  }

  // ---------------------------------------------------------------- bitmaps

  /** `val |= 1 << k` for every k that is on. */
  function Pack(bs: seq<bool>): (v: bv8)
    requires |bs| <= 8
    ensures forall k: nat | k < 8 :: Bit(v, k) <==> k < |bs| && bs[k]
  {
    if bs == [] then
      assert forall k: nat | k < 8 :: !Bit(0, k) by { forall k: nat | k < 8 ensures !Bit(0, k) { ZeroByte(k); } }
      0
    else
      var n := |bs| - 1;
      if bs[n] then OrBit(Pack(bs[..n]), n) else Pack(bs[..n])
  }

  lemma SixBits(v: bv8)
    requires !Bit(v, 6) && !Bit(v, 7)
    ensures v < 64
  {
  }

  function Min(a: int, b: int): int { if a < b then a else b }

  /** The k-th character of the bitmap of the members in [cur, e). */
  function Slice6(t: seq<bool>, cur: nat, e: nat, k: nat): (bs: seq<bool>)
    requires cur <= e <= |t| && cur + 6 * k <= e
    ensures |bs| <= 6
  {
    t[cur + 6 * k..Min(cur + 6 * k + 6, e)]
  }

  function Bitmap(t: seq<bool>, cur: nat, e: nat): (ds: seq<bv8>)
    requires cur < e <= |t|
    ensures |ds| == (e - cur + 5) / 6 && AllSextets(ds)
  {
    var n := (e - cur + 5) / 6;
    var ds := seq(n, k requires 0 <= k < n => Pack(Slice6(t, cur, e, k)));
    assert AllSextets(ds) by {
      forall k | 0 <= k < n ensures ds[k] < 64 { SixBits(ds[k]); }
    }
    ds
  }

  function GroupOf(t: seq<bool>, cur: nat, e: nat): (g: Group)
    requires cur < e <= |t|
    ensures WellFormed(g) && g.start == cur
  {
    if e - cur <= 1 then Single(cur) else Packed(cur, Bitmap(t, cur, e))
  }

  lemma BitmapBit(t: seq<bool>, cur: nat, e: nat, k: nat, j: nat)
    requires cur < e <= |t| && k < |Bitmap(t, cur, e)| && j < 6
    ensures Bit(Bitmap(t, cur, e)[k], j) <==> cur + 6 * k + j < e && t[cur + 6 * k + j]
  {
    var bs := Slice6(t, cur, e, k);
    assert Bit(Pack(bs), j) <==> j < |bs| && bs[j];
  }

  lemma BitmapMembers(t: seq<bool>, cur: nat, e: nat, x: nat)
    requires cur < e <= |t|
    ensures Member(Packed(cur, Bitmap(t, cur, e)), x) <==> cur <= x < e && t[x]
  {
    hide Bitmap;
    var n := |Bitmap(t, cur, e)|;
    assert 6 * n >= e - cur;
    if cur <= x < cur + 6 * n {
      var k, j := (x - cur) / 6, (x - cur) % 6;
      assert x == cur + 6 * k + j && k < n;
      BitmapBit(t, cur, e, k, j);
    }
  }

  lemma GroupOfMembers(t: seq<bool>, cur: nat, e: nat, x: nat)
    requires cur < e <= |t| && t[cur]
    ensures Member(GroupOf(t, cur, e), x) <==> cur <= x < e && t[x]
  {
    if e - cur > 1 { BitmapMembers(t, cur, e, x); }
  }

  // ---------------------------------------------------------------- the groups of a set

  function Groups(t: seq<bool>, cur: nat): (gs: seq<Group>)
    requires EndsSet(t) && cur < |t|
    ensures gs != [] && forall k | 0 <= k < |gs| :: WellFormed(gs[k])
    decreases |t| - cur
  {
    var e := GroupEnd(t, cur);
    [GroupOf(t, cur, e)] + if e == |t| then [] else Groups(t, NextSet(t, e))
  }

  function SetGroups(bits: seq<bool>): (gs: seq<Group>)
    ensures forall k | 0 <= k < |gs| :: WellFormed(gs[k])
  {
    var t := Trim(bits);
    if t == [] then [] else Groups(t, NextSet(t, 0))
  }

  /** The groups hold the members of the set, no more and no less. */
  lemma {:induction false} GroupsMembers(t: seq<bool>, cur: nat, x: nat)
    requires EndsSet(t) && cur < |t| && t[cur]
    ensures InGroups(Groups(t, cur), x) <==> cur <= x < |t| && t[x]
    decreases |t| - cur
  {
    var e := GroupEnd(t, cur);
    var g := GroupOf(t, cur, e);
    GroupOfMembers(t, cur, e, x);
    var rest := if e == |t| then [] else Groups(t, NextSet(t, e));
    assert ([g] + rest)[1..] == rest;
    if e < |t| {
      GroupsMembers(t, NextSet(t, e), x);
    }
  }

  lemma SetGroupsMembers(bits: seq<bool>, x: nat)
    ensures InGroups(SetGroups(bits), x) <==> Has(bits, x)
  {
    var t := Trim(bits);
    assert Has(t, x) <==> Has(bits, x);
    if t != [] {
      GroupsMembers(t, NextSet(t, 0), x);
    }
  }

  // ---------------------------------------------------------------- where groups begin and end

  /** The bitmap of a group starts with its first member and has another one, its last character is not empty, and
      it never has five empty characters in a row. */
  predicate Dense(g: Group) {
    g.Packed? ==>
      && g.digits != [] && g.digits != [1] && Bit(g.digits[0], 0) && g.digits[|g.digits| - 1] != 0
      && forall i | 0 <= i <= |g.digits| - 5 :: SomeOfFive(g.digits, i)
  }

  predicate SomeOfFive(ds: seq<bv8>, i: nat)
    requires i + 5 <= |ds|
  {
    exists j | i <= j < i + 5 :: ds[j] != 0
  }

  /** Between the characters of the last member of g and of the first member of h, a bitmap from the start of g on
      would have at least five others: all members of g lie in front of character c, and h starts behind c + 4. */
  ghost predicate Apart(g: Group, h: Group) {
    exists c: nat :: MembersBelow(g, g.start + 6 * c) && g.start + 6 * (c + 5) <= h.start
  }

  ghost predicate MembersBelow(g: Group, n: nat) { forall x: nat | Member(g, x) :: x < n }

  lemma NotEmpty(t: seq<bool>, cur: nat, e: nat, x: nat)
    requires cur <= x < e <= |t| && t[x]
    ensures (x - cur) / 6 < |Bitmap(t, cur, e)| && Bitmap(t, cur, e)[(x - cur) / 6] != 0
  {
    hide Bitmap;
    var k, j := (x - cur) / 6, (x - cur) % 6;
    BitmapBit(t, cur, e, k, j);
    ZeroByte(j);
  }

  lemma FiveAreNotEmpty(t: seq<bool>, cur: nat, e: nat, i: nat)
    requires cur < e <= |t| && t[e - 1] && NoLongGap(t, cur, e) && i + 5 <= |Bitmap(t, cur, e)|
    ensures SomeOfFive(Bitmap(t, cur, e), i)
  {
    hide Bitmap;
    var x := e - 1;
    if cur + 6 * i + 30 <= e {
      assert HasIn(t, cur + 6 * i, cur + 6 * i + 30);
      x :| cur + 6 * i <= x < cur + 6 * i + 30 && Has(t, x);
    }
    NotEmpty(t, cur, e, x);
    var k := (x - cur) / 6;
    assert i <= k < i + 5;
  }

  lemma NotJustOne(t: seq<bool>, cur: nat, e: nat)
    requires cur + 1 < e <= |t| && t[e - 1] && |Bitmap(t, cur, e)| == 1
    ensures Bitmap(t, cur, e)[0] != 1
  {
    BitmapBit(t, cur, e, 0, e - 1 - cur);
    OnlyBitZero(e - 1 - cur);
  }

  lemma OnlyBitZero(j: nat)
    requires 0 < j < 8
    ensures !Bit(1, j)
  {
  }

  lemma GroupIsDense(t: seq<bool>, cur: nat)
    requires EndsSet(t) && cur < |t| && t[cur]
    ensures Dense(GroupOf(t, cur, GroupEnd(t, cur)))
  {
    hide Bitmap, Bit, GroupEnd, NoLongGap, SomeOfFive;
    var e := GroupEnd(t, cur);
    GroupEndIs(t, cur);
    if e - cur > 1 {
      var ds := Bitmap(t, cur, e);
      BitmapBit(t, cur, e, 0, 0);
      NotEmpty(t, cur, e, e - 1);
      if |ds| == 1 { NotJustOne(t, cur, e); }
      forall i | 0 <= i <= |ds| - 5 ensures SomeOfFive(ds, i) { FiveAreNotEmpty(t, cur, e, i); }
    }
  }

  lemma NextIsApart(t: seq<bool>, cur: nat)
    requires EndsSet(t) && cur < |t| && t[cur] && GroupEnd(t, cur) < |t|
    ensures var e := GroupEnd(t, cur); var next := NextSet(t, e);
            next < |t| && t[next] && forall f | next < f <= |t| :: Apart(GroupOf(t, cur, e), GroupOf(t, next, f))
  {
    hide Bitmap, Bit, GroupEnd, NoLongGap;
    var e := GroupEnd(t, cur);
    var next := NextSet(t, e);
    assert t[|t| - 1];
    GroupEndIs(t, cur);
    var c: nat :| FiveEmpty(t, cur, e, c) && cur + 6 * c + 30 < |t|;
    assert Has(t, next) && cur + 6 * c + 30 <= next;
    assert MembersBelow(GroupOf(t, cur, e), cur + 6 * c) by {
      forall x: nat | Member(GroupOf(t, cur, e), x) ensures x < cur + 6 * c { GroupOfMembers(t, cur, e, x); }
    }
    hide GroupOf, MembersBelow;
    forall f | next < f <= |t| ensures Apart(GroupOf(t, cur, e), GroupOf(t, next, f)) {
      assert GroupOf(t, cur, e).start + 6 * (c + 5) <= GroupOf(t, next, f).start;
    }
  }

  /** How groups are cut: none could be split at a gap, and no two neighbours could be merged. */
  ghost predicate WellCut(gs: seq<Group>) {
    && (forall k | 0 <= k < |gs| :: Dense(gs[k]))
    && (forall k | 0 < k < |gs| :: Apart(gs[k - 1], gs[k]))
  }

  lemma WellCutCons(g: Group, gs: seq<Group>)
    requires Dense(g) && WellCut(gs) && (gs != [] ==> Apart(g, gs[0]))
    ensures WellCut([g] + gs)
  {
    hide Dense, Apart;
    var all := [g] + gs;
    forall k | 0 < k < |all| ensures Apart(all[k - 1], all[k]) { assert all[k] == gs[k - 1]; }
  }

  lemma {:induction false} GroupsAreCut(t: seq<bool>, cur: nat)
    requires EndsSet(t) && cur < |t| && t[cur]
    ensures WellCut(Groups(t, cur))
    decreases |t| - cur
  {
    hide Dense, Apart, GroupEnd, NextSet, GroupOf, WellCut;
    var e := GroupEnd(t, cur);
    GroupIsDense(t, cur);
    if e < |t| {
      var next := NextSet(t, e);
      NextIsApart(t, cur);
      GroupsAreCut(t, next);
      WellCutCons(GroupOf(t, cur, e), Groups(t, next));
    } else {
      NothingCut();
      WellCutCons(GroupOf(t, cur, e), []);
    }
  }

  lemma NothingCut()
    ensures WellCut([])
  {
  }

  lemma SetGroupsAreCut(bits: seq<bool>)
    ensures WellCut(SetGroups(bits))
  {
    hide Groups, WellCut;
    var t := Trim(bits);
    if t == [] {
      NothingCut();
    } else {
      FirstIsMember(t);
      GroupsAreCut(t, NextSet(t, 0));
    }
  }

  lemma FirstIsMember(t: seq<bool>)
    requires EndsSet(t)
    ensures NextSet(t, 0) < |t| && t[NextSet(t, 0)]
  {
    assert t[|t| - 1];
  }

  // ---------------------------------------------------------------- size of the text

  lemma NumTextLength(v: nat)
    requires v <= INT_MAX
    ensures |NumText(v)| <= 6
    ensures v < 64 ==> |NumText(v)| == 1
  {
    var v1, v2 := v / 64, v / 64 / 64;
    var v3, v4 := v2 / 64, v2 / 64 / 64;
    var v5 := v4 / 64;
    assert v5 < 64;
    assert |NumText(v5)| == 1 && |NumText(v4)| <= 2 && |NumText(v3)| <= 3 && |NumText(v2)| <= 4;
    assert |NumText(v1)| <= 5;
  }

  /** Every group of a set of C ints can be written, in few enough characters. */
  lemma GroupOfText(t: seq<bool>, cur: nat, e: nat)
    requires cur < e <= |t| <= INT_MAX
    ensures var g := GroupOf(t, cur, e); Writable(g) && 16 * |GroupText(g)| <= 7 * (e - cur + 30)
  {
    var n := (e - cur + 5) / 6;
    NumTextLength(cur);
    NumTextLength(n);
  }

  lemma TextOfCons(g: Group, gs: seq<Group>)
    requires Writable(g) && AllWritable(gs)
    ensures AllWritable([g] + gs) && TextOf([g] + gs) == GroupText(g) + TextOf(gs)
  {
    assert ([g] + gs)[1..] == gs;
  }

  lemma {:induction false} GroupsText(t: seq<bool>, cur: nat)
    requires EndsSet(t) && cur < |t| <= INT_MAX
    ensures AllWritable(Groups(t, cur))
    ensures 16 * |TextOf(Groups(t, cur))| <= 7 * (|t| - cur + 30)
    decreases |t| - cur
  {
    var e := GroupEnd(t, cur);
    var g := GroupOf(t, cur, e);
    GroupOfText(t, cur, e);
    if e < |t| {
      var next := NextSet(t, e);
      GroupsText(t, next);
      TextOfCons(g, Groups(t, next));
      assert next - e >= 30;
    } else {
      TextOfCons(g, []);
    }
  }
}
