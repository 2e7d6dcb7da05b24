/** clarlog.c over cldb_plugin_file.c: the clarification log, an array in memory and its copy in a file. */
module ClarLog {
  import opened CTypes
  import opened ClarSubject

  const CLAR_ENTRY_CHARSET_SIZE := 16
  const INTERNAL_CHARSET: CString := [117, 116, 102, 45, 56]

  /** struct clar_entry_v1, its padding left out. */
  datatype Entry = Entry(
    id: int, size: int, time: int, nsec: int, fromId: int, toId: int, jFrom: int, flags: int,
    ipv6Flag: int, hideFlag: int, sslFlag: int, appealFlag: int, ip: seq<bv8>,
    localeId: int, inReplyTo: int, runId: int, charset: seq<bv8>, subj: seq<bv8>)

  /** An entry of zero bytes, and the mark of an unused slot. */
  const ZERO := Entry(0, 0, 0, 0, 0, 0, 0, 0, 0, 0, 0, 0, Fill<bv8>(16, 0), 0, 0, 0,
                      Fill<bv8>(CLAR_ENTRY_CHARSET_SIZE, 0), Fill<bv8>(CLAR_ENTRY_SUBJ_SIZE, 0))
  const UNUSED := ZERO.(id := -1)

  /** Assigning an int to a field of 8, 16 or 32 unsigned bits. */
  function U8(x: int): int { x % 0x100 }
  function U16(x: int): int { x % 0x1_0000 }
  function U32(x: int): int { x % 0x1_0000_0000 }

  function Lower(c: bv8): bv8 { if 65 <= c <= 90 then c + 32 else c }

  function First(s: seq<bv8>, n: nat): seq<bv8> { if |s| < n then s else s[..n] }

  /** strncpy, the final NUL and tolower: a new charset field. */
  function NewCharset(s: CString): (t: seq<bv8>)
    ensures |t| == CLAR_ENTRY_CHARSET_SIZE
  {
    var p := First(s, CLAR_ENTRY_CHARSET_SIZE - 1);
    seq(|p|, k requires 0 <= k < |p| => Lower(p[k])) + Fill<bv8>(CLAR_ENTRY_CHARSET_SIZE - |p|, 0)
  }

  /** snprintf(dst, sizeof dst, "%s", s): bytes behind the NUL keep their old values. */
  function SnPrintf(dst: seq<bv8>, s: seq<bv8>): (t: seq<bv8>)
    ensures |t| == |dst|
  {
    if dst == [] then [] else
    var p := First(s, |dst| - 1);
    p + [0] + dst[|p| + 1..]
  }

  // ---------------------------------------------------------------- the file

  /** A log file: empty, a header with records behind it, or a header of a later version. */
  datatype LogFile = Empty | Log(records: seq<Entry>) | Later

  /** do_flush_entry: writing past the end leaves a hole of zero bytes. */
  function WriteAt(rs: seq<Entry>, n: nat, e: Entry): (t: seq<Entry>)
    ensures n == |rs| ==> t == rs + [e]
    ensures n < |rs| ==> t == rs[n := e]
  {
    if n < |rs| then rs[n := e] else rs + seq(n - |rs|, _ => ZERO) + [e]
  }

  predicate NoMinusOne(rs: seq<Entry>) {
    forall k | 0 <= k < |rs| :: rs[k].fromId != -1 && rs[k].toId != -1
  }

  predicate Numbered(rs: seq<Entry>) {
    forall k | 0 <= k < |rs| :: rs[k].id == k
  }

  /** What opening a log does to a record written with "nobody" as -1. */
  function Fixed(e: Entry): Entry {
    e.(fromId := if e.fromId == -1 then 0 else e.fromId, toId := if e.toId == -1 then 0 else e.toId)
  }

  function FixedAll(rs: seq<Entry>): (t: seq<Entry>)
    ensures |t| == |rs|
    ensures forall k | 0 <= k < |rs| ::
              && t[k].fromId == (if rs[k].fromId == -1 then 0 else rs[k].fromId)
              && t[k].toId == (if rs[k].toId == -1 then 0 else rs[k].toId)
              && t[k].(fromId := rs[k].fromId, toId := rs[k].toId) == rs[k]
  {
    seq(|rs|, k requires 0 <= k < |rs| => Fixed(rs[k]))
  }

  /** The first n records repaired. */
  function FixedTo(rs: seq<Entry>, n: nat): (t: seq<Entry>)
    requires n <= |rs|
    ensures |t| == |rs|
  {
    FixedAll(rs)[..n] + rs[n..]
  }

  lemma FixedEnds(rs: seq<Entry>)
    ensures FixedTo(rs, 0) == rs && FixedTo(rs, |rs|) == FixedAll(rs)
  {
  }

  lemma FixedUnused(rs: seq<Entry>, n: nat)
    ensures FixedAll(rs + Fill(n, UNUSED)) == FixedAll(rs) + Fill(n, UNUSED)
  {
  }

  /** Repairing record i of a list repaired up to i. */
  lemma FixOne(rs: seq<Entry>, i: nat)
    requires i < |rs|
    ensures FixedTo(rs, i + 1) == FixedTo(rs, i)[i := Fixed(rs[i])]
    ensures FixedTo(rs, i)[i] == rs[i]
  {
  }

  /** Opening changes no record exactly when none says -1. */
  lemma FixesNothing(rs: seq<Entry>)
    ensures FixedAll(rs) == rs <==> NoMinusOne(rs)
  {
    if FixedAll(rs) == rs {
      forall k | 0 <= k < |rs| ensures rs[k].fromId != -1 && rs[k].toId != -1 { assert rs[k] == FixedAll(rs)[k]; }
    }
  }

  /** Such a record, and what opening makes of it. */
  lemma NobodyIsLost()
    ensures FixedAll([ZERO.(fromId := -1)]) == [ZERO] != [ZERO.(fromId := -1)]
  {
    assert FixedAll([ZERO.(fromId := -1)])[0] == ZERO;
  }

  // ---------------------------------------------------------------- field masks

  const CLAR_FIELD_SIZE := 1
  const CLAR_FIELD_FROM := 4
  const CLAR_FIELD_TO := 5
  const CLAR_FIELD_J_FROM := 6
  const CLAR_FIELD_FLAGS := 7
  const CLAR_FIELD_HIDE_FLAG := 8
  const CLAR_FIELD_SSL_FLAG := 9
  const CLAR_FIELD_APPEAL_FLAG := 10
  const CLAR_FIELD_IP := 11
  const CLAR_FIELD_LOCALE_ID := 12
  const CLAR_FIELD_IN_REPLY_TO := 13
  const CLAR_FIELD_RUN_ID := 14
  const CLAR_FIELD_CHARSET := 15
  const CLAR_FIELD_SUBJECT := 16

  /** mask & (1 << field) */
  predicate On(mask: bv32, field: nat)
    requires field < 32
  {
    mask & (1 << field) != 0
  }

  /** The masked fields of p over those of e; id, time and nsec are never replaced. */
  function Merged(e: Entry, mask: bv32, p: Entry): Entry {
    MergedContent(MergedRoute(e, mask, p), mask, p)
  }

  function MergedRoute(e: Entry, mask: bv32, p: Entry): Entry {
    e.(size := if On(mask, CLAR_FIELD_SIZE) then p.size else e.size,
       fromId := if On(mask, CLAR_FIELD_FROM) then p.fromId else e.fromId,
       toId := if On(mask, CLAR_FIELD_TO) then p.toId else e.toId,
       jFrom := if On(mask, CLAR_FIELD_J_FROM) then p.jFrom else e.jFrom,
       flags := if On(mask, CLAR_FIELD_FLAGS) then p.flags else e.flags,
       hideFlag := if On(mask, CLAR_FIELD_HIDE_FLAG) then p.hideFlag else e.hideFlag,
       sslFlag := if On(mask, CLAR_FIELD_SSL_FLAG) then p.sslFlag else e.sslFlag)
  }

  function MergedContent(e: Entry, mask: bv32, p: Entry): Entry {
    e.(appealFlag := if On(mask, CLAR_FIELD_APPEAL_FLAG) then p.appealFlag else e.appealFlag,
       ipv6Flag := if On(mask, CLAR_FIELD_IP) then p.ipv6Flag else e.ipv6Flag,
       ip := if On(mask, CLAR_FIELD_IP) then p.ip else e.ip,
       localeId := if On(mask, CLAR_FIELD_LOCALE_ID) then p.localeId else e.localeId,
       inReplyTo := if On(mask, CLAR_FIELD_IN_REPLY_TO) then p.inReplyTo else e.inReplyTo,
       runId := if On(mask, CLAR_FIELD_RUN_ID) then p.runId else e.runId,
       charset := if On(mask, CLAR_FIELD_CHARSET) then SnPrintf(e.charset, CStr<bv8>(p.charset, 0)) else e.charset,
       subj := if On(mask, CLAR_FIELD_SUBJECT) then SnPrintf(e.subj, CStr<bv8>(p.subj, 0)) else e.subj)
  }

  /** The text in a buffer after snprintf: as much of s as fits in front of a NUL. */
  predicate Printed(dst: seq<bv8>, s: seq<bv8>, t: seq<bv8>) {
    dst != [] && |t| == |dst| && CStr<bv8>(t, 0) == s[..if |s| < |dst| then |s| else |dst| - 1]
  }

  lemma CStrIs(t: seq<bv8>, n: nat)
    requires n < |t| && t[n] == 0 && 0 !in t[..n]
    ensures CStr<bv8>(t, 0) == t[..n]
  {
    var k := StrLen<bv8>(t, 0);
    assert forall i | 0 <= i < n :: t[i] == t[..n][i];
    assert !(k < n) && !(n < k);
  }

  lemma SnPrintfIs(dst: seq<bv8>, s: CString)
    requires dst != []
    ensures Printed(dst, s, SnPrintf(dst, s))
  {
    var t, n := SnPrintf(dst, s), if |s| < |dst| then |s| else |dst| - 1;
    assert t[..n] == s[..n] && t[n] == 0;
    CStrIs(t, n);
  }

  /** What a mask does to a record: each bit is for one field, in the order of the enumeration of clarlog.h. */
  predicate Modified(e: Entry, mask: bv32, p: Entry, t: Entry) {
    && t.id == e.id && t.time == e.time && t.nsec == e.nsec
    && t.size == (if mask & 0x2 != 0 then p.size else e.size)
    && t.fromId == (if mask & 0x10 != 0 then p.fromId else e.fromId)
    && t.toId == (if mask & 0x20 != 0 then p.toId else e.toId)
    && t.jFrom == (if mask & 0x40 != 0 then p.jFrom else e.jFrom)
    && t.flags == (if mask & 0x80 != 0 then p.flags else e.flags)
    && t.hideFlag == (if mask & 0x100 != 0 then p.hideFlag else e.hideFlag)
    && t.sslFlag == (if mask & 0x200 != 0 then p.sslFlag else e.sslFlag)
    && t.appealFlag == (if mask & 0x400 != 0 then p.appealFlag else e.appealFlag)
    && t.ipv6Flag == (if mask & 0x800 != 0 then p.ipv6Flag else e.ipv6Flag)
    && t.ip == (if mask & 0x800 != 0 then p.ip else e.ip)
    && t.localeId == (if mask & 0x1000 != 0 then p.localeId else e.localeId)
    && t.inReplyTo == (if mask & 0x2000 != 0 then p.inReplyTo else e.inReplyTo)
    && t.runId == (if mask & 0x4000 != 0 then p.runId else e.runId)
    && (if mask & 0x8000 != 0 && e.charset != [] then Printed(e.charset, CStr<bv8>(p.charset, 0), t.charset)
        else t.charset == e.charset)
    && (if mask & 0x1_0000 != 0 && e.subj != [] then Printed(e.subj, CStr<bv8>(p.subj, 0), t.subj)
        else t.subj == e.subj)
  }

  lemma MaskBits(mask: bv32)
    ensures On(mask, 1) == (mask & 0x2 != 0) && On(mask, 4) == (mask & 0x10 != 0) && On(mask, 5) == (mask & 0x20 != 0)
    ensures On(mask, 6) == (mask & 0x40 != 0) && On(mask, 7) == (mask & 0x80 != 0) && On(mask, 8) == (mask & 0x100 != 0)
    ensures On(mask, 9) == (mask & 0x200 != 0) && On(mask, 10) == (mask & 0x400 != 0)
    ensures On(mask, 11) == (mask & 0x800 != 0) && On(mask, 12) == (mask & 0x1000 != 0)
    ensures On(mask, 13) == (mask & 0x2000 != 0) && On(mask, 14) == (mask & 0x4000 != 0)
    ensures On(mask, 15) == (mask & 0x8000 != 0) && On(mask, 16) == (mask & 0x1_0000 != 0)
  {
  }

  lemma PrintedOrKept(mask: bool, dst: seq<bv8>, s: CString)
    ensures var t := if mask then SnPrintf(dst, s) else dst;
            if mask && dst != [] then Printed(dst, s, t) else t == dst
  {
    if mask && dst != [] { SnPrintfIs(dst, s); }
  }

  lemma NoNul(s: seq<bv8>)
    ensures 0 !in CStr<bv8>(s, 0)
  {
  }

  lemma MergedIs(e: Entry, mask: bv32, p: Entry)
    ensures Modified(e, mask, p, Merged(e, mask, p))
  {
    MaskBits(mask);
    hide On, SnPrintf, Printed, CStr;
    NoNul(p.charset);
    NoNul(p.subj);
    PrintedOrKept(On(mask, CLAR_FIELD_CHARSET), e.charset, CStr<bv8>(p.charset, 0));
    PrintedOrKept(On(mask, CLAR_FIELD_SUBJECT), e.subj, CStr<bv8>(p.subj, 0));
  }

  // ---------------------------------------------------------------- what the operations mean

  /** The arguments of clar_add_record. */
  datatype Args = Args(
    time: int, nsec: int, size: int, ipv6Flag: int, ip: seq<bv8>, sslFlag: int, fromId: int, toId: int,
    flags: int, jFrom: int, hideFlag: int, localeId: int, inReplyTo: int, runId: int, appealFlag: int,
    utf8Mode: bool, charset: Option<CString>, subj: Option<CString>)

  /** The record made of the arguments: narrowed to the fields' widths, the subject cut to fit. */
  function EntryFor(i: int, a: Args): Entry {
    var subj := Stored(if a.subj.Some? then a.subj.value else [], a.utf8Mode);
    Entry(i, U32(a.size), a.time, a.nsec, a.fromId, a.toId, a.jFrom, U32(a.flags),
          a.ipv6Flag, U8(a.hideFlag), U8(a.sslFlag), U8(a.appealFlag), a.ip,
          U16(a.localeId), a.inReplyTo, a.runId,
          NewCharset(if a.charset.Some? then a.charset.value else INTERNAL_CHARSET),
          subj + Fill<bv8>(CLAR_ENTRY_SUBJ_SIZE - |subj|, 0))
  }

  /** y is x as a field of m values keeps it. */
  predicate Narrowed(x: int, y: int, m: int)
    requires m > 0
  {
    0 <= y < m && (y - x) % m == 0
  }

  /** The name of a character set as it is stored: its first 15 bytes in small letters. */
  predicate CharsetHolds(name: CString, c: seq<bv8>) {
    && |c| == (if |name| < 15 then |name| else 15)
    && forall k | 0 <= k < |c| :: c[k] == if 65 <= name[k] <= 90 then name[k] + 32 else name[k]
  }

  /** A record says what the arguments say. */
  predicate HoldsArgs(e: Entry, a: Args) {
    && e.time == a.time && e.nsec == a.nsec && e.fromId == a.fromId && e.toId == a.toId && e.jFrom == a.jFrom
    && e.ipv6Flag == a.ipv6Flag && e.ip == a.ip && e.inReplyTo == a.inReplyTo && e.runId == a.runId
    && Narrowed(a.size, e.size, 0x1_0000_0000) && Narrowed(a.flags, e.flags, 0x1_0000_0000)
    && Narrowed(a.hideFlag, e.hideFlag, 0x100) && Narrowed(a.sslFlag, e.sslFlag, 0x100)
    && Narrowed(a.appealFlag, e.appealFlag, 0x100) && Narrowed(a.localeId, e.localeId, 0x1_0000)
    && |e.charset| == 16
    && CharsetHolds(if a.charset.Some? then a.charset.value else [117, 116, 102, 45, 56], CStr<bv8>(e.charset, 0))
    && |e.subj| == 32 && CStr<bv8>(e.subj, 0) == Stored(if a.subj.Some? then a.subj.value else [], a.utf8Mode)
  }

  lemma CharsetIs(name: CString)
    ensures |NewCharset(name)| == 16 && CharsetHolds(name, CStr<bv8>(NewCharset(name), 0))
  {
    var t, n := NewCharset(name), if |name| < 15 then |name| else 15;
    forall k | 0 <= k < n ensures t[k] == (if 65 <= name[k] <= 90 then name[k] + 32 else name[k]) && t[k] != 0 {}
    CStrIs(t, n);
  }

  lemma SubjectIs(s: CString)
    requires |s| < 32
    ensures CStr<bv8>(s + Fill<bv8>(32 - |s|, 0), 0) == s
  {
    var t := s + Fill<bv8>(32 - |s|, 0);
    assert t[..|s|] == s;
    CStrIs(t, |s|);
  }

  lemma EntryHolds(i: int, a: Args)
    ensures EntryFor(i, a).id == i && HoldsArgs(EntryFor(i, a), a)
  {
    hide NewCharset, Stored, CharsetHolds, CStr, Fill;
    CharsetIs(if a.charset.Some? then a.charset.value else INTERNAL_CHARSET);
    SubjectIs(Stored(if a.subj.Some? then a.subj.value else [], a.utf8Mode));
  }

  /** An operation of the log; Put uses the next free id. */
  datatype Op =
    | Add(a: Args)
    | Put(p: Entry)
    | UpdateFlags(id: int, flags: int)
    | SetCharset(id: int, charset: CString)
    | Modify(id: int, mask: bv32, p: Entry)
    | Reset

  /** The log as a plain list of records. */
  function Step(rs: seq<Entry>, op: Op): seq<Entry> {
    match op
    case Add(a) => rs + [EntryFor(|rs|, a)]
    case Put(p) => if p.id < 0 then rs else rs + [p.(id := |rs|)]
    case UpdateFlags(id, flags) =>
      if 0 <= id < |rs| && 0 <= flags <= 255 then rs[id := rs[id].(flags := flags)] else rs
    case SetCharset(id, charset) =>
      if 0 <= id < |rs| then rs[id := rs[id].(charset := SnPrintf(rs[id].charset, charset))] else rs
    case Modify(id, mask, p) =>
      if 0 <= id < |rs| then rs[id := Merged(rs[id], mask, p)] else rs
    case Reset => []
  }

  function Steps(rs: seq<Entry>, ops: seq<Op>): seq<Entry> {
    if ops == [] then rs else Step(Steps(rs, ops[..|ops| - 1]), ops[|ops| - 1])
  }

  /** The operation stores no -1 in `from` or `to`. */
  predicate NamesSomebody(op: Op) {
    match op
    case Add(a) => a.fromId != -1 && a.toId != -1
    case Put(p) => p.fromId != -1 && p.toId != -1
    case Modify(_, mask, p) => (On(mask, CLAR_FIELD_FROM) ==> p.fromId != -1)
                               && (On(mask, CLAR_FIELD_TO) ==> p.toId != -1)
    case _ => true
  }

  predicate Somebody(e: Entry) { e.fromId != -1 && e.toId != -1 }

  /** What a new record at position i or in place of record i has to be like. */
  lemma PlaceKeeps(rs: seq<Entry>, i: nat, e: Entry, t: seq<Entry>)
    requires Numbered(rs) && e.id == i <= |rs| && t == if i < |rs| then rs[i := e] else rs + [e]
    ensures Numbered(t) && (NoMinusOne(rs) && Somebody(e) ==> NoMinusOne(t))
  {
  }

  lemma MergedKeeps(e: Entry, mask: bv32, p: Entry)
    ensures Merged(e, mask, p).id == e.id
    ensures Somebody(e) && NamesSomebody(Modify(e.id, mask, p)) ==> Somebody(Merged(e, mask, p))
  {
    hide On, SnPrintf, CStr;
  }

  lemma StepKeeps(rs: seq<Entry>, op: Op)
    requires Numbered(rs)
    ensures Numbered(Step(rs, op)) && (NoMinusOne(rs) && NamesSomebody(op) ==> NoMinusOne(Step(rs, op)))
  {
    hide On, SnPrintf, NewCharset, Stored, Merged;
    var i := if op.UpdateFlags? || op.SetCharset? || op.Modify? then op.id else |rs|;
    if 0 <= i < |rs| {
      var r := rs[i];
      assert NoMinusOne(rs) ==> Somebody(r);
      hide NoMinusOne, Numbered;
      if op.Modify? { MergedKeeps(r, op.mask, op.p); }
      if Step(rs, op) != rs { PlaceKeeps(rs, i, Step(rs, op)[i], Step(rs, op)); }
    } else if op.Add? || op.Put? {
      hide NoMinusOne, Numbered;
      if Step(rs, op) != rs { PlaceKeeps(rs, |rs|, Step(rs, op)[|rs|], Step(rs, op)); }
    }
  }

  /** Over every run: ids are positions, and -1 never appears when no operation stores it. */
  lemma {:induction false} RunKeeps(rs: seq<Entry>, ops: seq<Op>)
    requires Numbered(rs)
    ensures Numbered(Steps(rs, ops))
    ensures NoMinusOne(rs) && (forall k | 0 <= k < |ops| :: NamesSomebody(ops[k])) ==> NoMinusOne(Steps(rs, ops))
  {
    if ops == [] {
    } else {
      hide Numbered, NoMinusOne, Step, NamesSomebody;
      RunKeeps(rs, ops[..|ops| - 1]);
      StepKeeps(Steps(rs, ops[..|ops| - 1]), ops[|ops| - 1]);
    }
  }

  /** One record for each operation, in order, which says what its arguments say. */
  predicate AddsKept(rs: seq<Entry>, ops: seq<Op>) {
    |rs| == |ops| && forall k | 0 <= k < |ops| :: ops[k].Add? && rs[k].id == k && HoldsArgs(rs[k], ops[k].a)
  }

  lemma OneMoreKept(rs: seq<Entry>, ops: seq<Op>, a: Args)
    requires AddsKept(rs, ops)
    ensures AddsKept(Step(rs, Add(a)), ops + [Add(a)])
  {
    hide HoldsArgs, EntryFor;
    EntryHolds(|rs|, a);
  }

  /** A run that only adds leaves such records. */
  lemma {:induction false} AddsAreKept(ops: seq<Op>)
    requires forall k | 0 <= k < |ops| :: ops[k].Add?
    ensures AddsKept(Steps([], ops), ops)
  {
    if ops == [] {
    } else {
      hide AddsKept, Step;
      var n := |ops| - 1;
      AddsAreKept(ops[..n]);
      OneMoreKept(Steps([], ops[..n]), ops[..n], ops[n].a);
      assert ops == ops[..n] + [Add(ops[n].a)];
    }
  }

  // ---------------------------------------------------------------- the log in memory

  /** Allocated sizes: 128 doubled until it is enough. */
  method Room(a: nat, needed: nat) returns (newA: nat)
    ensures newA >= 128 || a > 0
    ensures newA > needed && newA >= a
  {
    newA := if a == 0 then 128 else a;
    while needed >= newA
      invariant newA >= a && newA >= 1 && (newA >= 128 || a > 0)
      decreases needed - newA
    {
      newA := newA * 2;
    }
  }

  /** The assignments to the fields of a new record. */
  method MakeEntry(i: int, a: Args, subj: CString) returns (e: Entry)
    requires subj == Stored(if a.subj.Some? then a.subj.value else [], a.utf8Mode)
    ensures e == EntryFor(i, a) && e.id == i
  {
    hide Stored, NewCharset;
    e := ZERO.(id := i, time := a.time, nsec := a.nsec, size := U32(a.size), fromId := a.fromId, toId := a.toId);
    e := e.(flags := U32(a.flags), jFrom := a.jFrom, hideFlag := U8(a.hideFlag), ipv6Flag := a.ipv6Flag, ip := a.ip);
    e := e.(sslFlag := U8(a.sslFlag), localeId := U16(a.localeId), inReplyTo := a.inReplyTo, runId := a.runId);
    e := e.(appealFlag := U8(a.appealFlag));
    e := e.(charset := NewCharset(if a.charset.Some? then a.charset.value else INTERNAL_CHARSET));
    e := e.(subj := subj + Fill<bv8>(CLAR_ENTRY_SUBJ_SIZE - |subj|, 0));
  }

  /** The old records, unused slots, and the new record. */
  lemma SlotsAfter(before: seq<Entry>, n: nat, e: Entry, after: seq<Entry>)
    requires |before| <= n && |after| == n + 1 && after[n] == e
    requires forall k | 0 <= k < |before| :: after[k] == before[k]
    requires forall k | |before| <= k < n :: after[k] == UNUSED
    ensures after == before + Fill(n - |before|, UNUSED) + [e]
  {
  }

  class ClarLogState {
    /** clars.v and clars.u; clars.a is the length of v. */
    var v: array<Entry>
    var u: nat
    var file: LogFile

    constructor ()
      ensures Valid() && fresh(v) && u == 0 && file == Empty
    {
      v := new Entry[0];
      u := 0;
      file := Empty;
    }

    ghost predicate Valid()
      reads this
    {
      u <= v.Length
    }

    /** Slot i below u has id i, the slots above are marked unused, and the file holds the same records. */
    ghost predicate Agrees()
      reads this, v
    {
      && u <= v.Length
      && (forall i | 0 <= i < u :: v[i].id == i)
      && (forall i | u <= i < v.Length :: v[i] == UNUSED)
      && file == Log(v[..u])
    }

    /** Makes room for slot n, the new slots unused. */
    method Grow(n: nat)
      requires Valid()
      modifies this`v
      ensures n < v.Length && old(v.Length) <= v.Length
      ensures v == old(v) || fresh(v)
      ensures forall i | 0 <= i < old(v.Length) :: v[i] == old(v[i])
      ensures forall i | old(v.Length) <= i < v.Length :: v[i] == UNUSED
    {
      if n < v.Length { return; }
      var newA := Room(v.Length, n);
      var newV := new Entry[newA](_ => ZERO);
      forall i | 0 <= i < v.Length { newV[i] := v[i]; }
      var i := v.Length;
      while i < newA
        invariant v.Length <= i <= newA
        invariant forall k | 0 <= k < v.Length :: newV[k] == v[k]
        invariant forall k | v.Length <= k < i :: newV[k] == UNUSED
        invariant forall k | i <= k < newA :: newV[k] == ZERO
        modifies newV
      {
        newV[i] := newV[i].(id := -1);
        i := i + 1;
      }
      v := newV;
    }

    /** do_flush_entry; `ioOk` tells whether seeking and writing succeed. */
    method FlushEntry(num: nat, ioOk: bool) returns (r: int)
      requires num < v.Length && file.Log?
      modifies this`file
      ensures r == if ioOk then 0 else -1
      ensures file == if ioOk then Log(WriteAt(old(file).records, num, v[num])) else old(file)
    {
      if !ioOk { return -1; }
      file := Log(WriteAt(file.records, num, v[num]));
      return 0;
    }

    /** clar_add_record: when the write fails, memory is one record ahead of the file. */
    method AddRecord(a: Args, ioOk: bool) returns (r: int)
      requires Valid() && file.Log?
      modifies this, v
      ensures Valid() && (v == old(v) || fresh(v)) && file.Log?
      ensures v[..u] == Step(old(v[..u]), Add(a))
      ensures u == old(u) + 1 && v[..u - 1] == old(v[..u]) && v[u - 1].id == u - 1 && HoldsArgs(v[u - 1], a)
      ensures r == if ioOk then old(u) else -1
      ensures old(Agrees()) ==> if ioOk then Agrees() else file == old(file)
    {
      hide Stored, EntryFor, HoldsArgs;
      ghost var before := v[..u];
      EntryHolds(u, a);
      Grow(u);
      var i := u;
      u := u + 1;
      var subj := StoredSubject(if a.subj.Some? then a.subj.value else [], a.utf8Mode);
      v[i] := MakeEntry(i, a, subj);
      assert v[..u] == before + [EntryFor(i, a)];
      r := FlushEntry(i, ioOk);
      if r < 0 { return -1; }
      r := i;
    }

    /** clar_put_record: it takes only unused ids. Between the records and an id further up, memory gets unused
        slots and the file zeros; so the two still agree exactly when the id was the next free one. A failed write
        leaves the file as it was. */
    method PutRecord(clarId: int, pclar: Option<Entry>, ioOk: bool) returns (r: int)
      requires Valid() && file.Log?
      modifies this, v
      ensures Valid() && (v == old(v) || fresh(v)) && file.Log?
      ensures old(Agrees()) ==>
                if clarId < old(u) || pclar.None? || pclar.value.id < 0
                then r == -1 && Agrees() && v == old(v) && v[..u] == old(v[..u])
                else
                  var e := pclar.value.(id := clarId);
                  && r == (if ioOk then clarId else -1)
                  && v[..u] == old(v[..u]) + Fill(clarId - old(u), UNUSED) + [e]
                  && file == (if ioOk then Log(WriteAt(old(file).records, clarId, e)) else old(file))
                  && (ioOk ==> (Agrees() <==> clarId == old(u)))
    {
      if clarId < 0 { return -1; }
      if pclar.None? || pclar.value.id < 0 { return -1; }
      ghost var before := v[..u];
      ghost var was := u;
      if clarId >= u {
        Grow(clarId);
        if clarId >= u { u := clarId + 1; }
      }
      if v[clarId].id >= 0 { return -1; }
      v[clarId] := pclar.value;
      v[clarId] := v[clarId].(id := clarId);
      if old(Agrees()) {
        SlotsAfter(before, clarId, v[clarId], v[..u]);
        if clarId > was { assert v[was] == UNUSED; }
      }
      r := FlushEntry(clarId, ioOk);
      if r < 0 { return -1; }
      r := clarId;
    }

    /** clar_update_flags */
    method UpdateFlags(id: int, flags: int, ioOk: bool) returns (r: int)
      requires Valid() && file.Log?
      modifies this`file, v
      ensures file.Log?
      ensures old(Agrees()) ==>
                && v[..u] == Step(old(v[..u]), Op.UpdateFlags(id, flags))
                && v[..u] == (if 0 <= id < u && 0 <= flags <= 255 then old(v[..u])[id := old(v[id]).(flags := flags)]
                              else old(v[..u]))
                && (if ioOk then Agrees() else file == old(file))
                && r == (if 0 <= id < u && 0 <= flags <= 255 && ioOk then 0 else -1)
    {
      if id < 0 || id >= u { return -1; }
      if v[id].id < 0 { return 0; }
      if v[id].id != id { return -1; }
      if flags < 0 || flags > 255 { return -1; }
      v[id] := v[id].(flags := flags);
      r := FlushEntry(id, ioOk);
      if r < 0 { return -1; }
      return 0;
    }

    /** clar_set_charset */
    method SetCharset(id: int, charset: CString, ioOk: bool) returns (r: int)
      requires Valid() && file.Log?
      modifies this`file, v
      ensures file.Log?
      ensures old(Agrees()) ==>
                && v[..u] == Step(old(v[..u]), Op.SetCharset(id, charset))
                && (forall k | 0 <= k < u && k != id :: v[k] == old(v[k]))
                && (0 <= id < u ==>
                      && v[id] == old(v[id]).(charset := v[id].charset)
                      && (v[id].charset != [] ==> Printed(old(v[id]).charset, charset, v[id].charset)))
                && (if ioOk then Agrees() else file == old(file))
                && r == (if 0 <= id < u && ioOk then 0 else -1)
    {
      hide SnPrintf, Printed;
      if id < 0 || id >= u { return -1; }
      if v[id].id < 0 { return 0; }
      if v[id].id != id { return -1; }
      if v[id].charset != [] { SnPrintfIs(v[id].charset, charset); }
      v[id] := v[id].(charset := SnPrintf(v[id].charset, charset));
      r := FlushEntry(id, ioOk);
      if r < 0 { return -1; }
      return 0;
    }

    /** clar_modify_record */
    method ModifyRecord(clarId: int, mask: bv32, pclar: Entry, ioOk: bool) returns (r: int)
      requires Valid() && file.Log?
      modifies this`file, v
      ensures file.Log?
      ensures old(Agrees()) ==>
                && v[..u] == Step(old(v[..u]), Modify(clarId, mask, pclar))
                && (forall k | 0 <= k < u && k != clarId :: v[k] == old(v[k]))
                && (0 <= clarId < u ==> Modified(old(v[clarId]), mask, pclar, v[clarId]))
                && (if ioOk then Agrees() else file == old(file))
                && r == (if 0 <= clarId < u && ioOk then 0 else -1)
    {
      hide SnPrintf, On, Modified;
      if 0 <= clarId < u { MergedIs(v[clarId], mask, pclar); }
      if clarId < 0 || clarId >= u { return -1; }
      var pe := ModifyRoute(v[clarId], mask, pclar);
      v[clarId] := ModifyContent(pe, mask, pclar);
      r := FlushEntry(clarId, ioOk);
    }

    /** create_new_clar_log for writing: an empty log in memory, and in the file when it can be written. */
    method CreateNew(truncateOk: bool, writeOk: bool) returns (r: int)
      modifies this
      ensures Valid() && fresh(v) && u == 0
      ensures r == if truncateOk && writeOk then 0 else -1
      ensures file == if !truncateOk then old(file) else if !writeOk then Empty else Log([])
      ensures r == 0 ==> Agrees()
    {
      u := 0;
      v := new Entry[128](_ => UNUSED);
      if !truncateOk { return -1; }
      file := Empty;
      if !writeOk { return -1; }
      file := Log([]);
      return 0;
    }

    /** read_clar_file: as many unused slots as needed, then the records, as far as they can be read. */
    method ReadFile(readable: nat) returns (r: int)
      requires file.Log?
      modifies this`v, this`u
      ensures Valid() && fresh(v) && u == |file.records|
      ensures r == if readable >= u then 0 else -1
      ensures v[..u] == (if readable < u then file.records[..readable] + Fill(u - readable, UNUSED) else file.records)
      ensures forall i | u <= i < v.Length :: v[i] == UNUSED
    {
      var rs := file.records;
      u := |rs|;
      var a: nat := 128;
      while a < u
        invariant a >= 128
        decreases u - a
      {
        a := a * 2;
      }
      var slots := new Entry[a](_ => UNUSED);
      v := slots;
      var i := 0;
      while i < u && i < readable
        invariant 0 <= i <= u && u == |rs| && i <= readable
        invariant forall k | 0 <= k < i :: slots[k] == rs[k]
        invariant forall k | i <= k < a :: slots[k] == UNUSED
        modifies slots
      {
        slots[i] := rs[i];
        i := i + 1;
      }
      r := if i < u then -1 else 0;
    }

    /** The repairing loop of do_clar_open; the results of its writes are ignored. */
    method FixEntries(ghost rs: seq<Entry>, ghost n: nat, ioOk: bool)
      requires Valid() && file == Log(rs) && n <= u == |rs| && v[..u] == rs[..n] + Fill(u - n, UNUSED)
      modifies this`file, v
      ensures v[..u] == FixedAll(rs[..n]) + Fill(u - n, UNUSED)
      ensures forall k | u <= k < v.Length :: v[k] == old(v[k])
      ensures file == if ioOk then Log(FixedTo(rs, n)) else Log(rs)
    {
      hide FixedTo, FixedAll, Fill, WriteAt;
      ghost var vs := v[..u];
      var i: nat := 0;
      FixedEnds(rs);
      FixedEnds(vs);
      while i < u
        invariant i <= u == |vs|
        invariant forall k | u <= k < v.Length :: v[k] == old(v[k])
        invariant v[..u] == FixedTo(vs, i)
        invariant file == if ioOk then Log(FixedTo(rs, if i < n then i else n)) else Log(rs)
      {
        FixEntry(i, rs, vs, n, ioOk);
        i := i + 1;
      }
      FixedUnused(rs[..n], u - n);
    }

    /** One step of it. */
    method FixEntry(i: nat, ghost rs: seq<Entry>, ghost vs: seq<Entry>, ghost n: nat, ioOk: bool)
      requires Valid() && i < u == |rs| && n <= u && vs == rs[..n] + Fill(u - n, UNUSED)
      requires v[..u] == FixedTo(vs, i)
      requires file == if ioOk then Log(FixedTo(rs, if i < n then i else n)) else Log(rs)
      modifies this`file, v
      ensures forall k | u <= k < v.Length :: v[k] == old(v[k])
      ensures v[..u] == FixedTo(vs, i + 1)
      ensures file == if ioOk then Log(FixedTo(rs, if i + 1 < n then i + 1 else n)) else Log(rs)
    {
      var f := false;
      assert v[i] == v[..u][i] == vs[i];
      if v[i].fromId == -1 { v[i], f := v[i].(fromId := 0), true; }
      if v[i].toId == -1 { v[i], f := v[i].(toId := 0), true; }
      assert v[i] == Fixed(vs[i]) && (!f ==> v[i] == old(v[i]));
      assert v[..u] == old(v[..u])[i := v[i]];
      FixOne(vs, i);
      if i < n { FixOne(rs, i); }
      if f { var _ := FlushEntry(i, ioOk); }
    }

    /** do_clar_open for writing. `canOpen` tells that the file can be opened, `readable` how many of its records
        can be read, and `ioOk` is about writing, be it a new header or the repairs. */
    method Open(canOpen: bool, readable: nat, ioOk: bool) returns (r: int)
      modifies this
      ensures Valid() && fresh(v)
      ensures !canOpen || old(file).Later? ==> r == -1 && u == 0 && file == old(file)
      ensures canOpen && old(file).Empty? ==>
                r == (if ioOk then 0 else -1) && u == 0 && if ioOk then Agrees() else file == old(file)
      ensures canOpen && old(file).Log? ==>
                var rs := old(file).records;
                var n := if readable < |rs| then readable else |rs|;
                && r == (if readable < |rs| then -1 else 0)
                && v[..u] == FixedAll(rs[..n]) + Fill(|rs| - n, UNUSED)
                && file == (if ioOk then Log(FixedTo(rs, n)) else old(file))
                && (Agrees() <==> n == |rs| && Numbered(rs) && (ioOk || NoMinusOne(rs)))
    {
      v := new Entry[0];
      u := 0;
      if !canOpen { return -1; }
      if file.Empty? {
        r := CreateNew(ioOk, ioOk);
        return;
      }
      if file.Later? { return -1; }
      ghost var rs := file.records;
      ghost var n := if readable < |rs| then readable else |rs|;
      r := ReadFile(readable);
      assert v[..u] == rs[..n] + Fill(u - n, UNUSED);
      FixEntries(rs, n, ioOk);
      AgreesAfterOpen(rs, n, ioOk);
    }

    lemma AgreesAfterOpen(rs: seq<Entry>, n: nat, ioOk: bool)
      requires Valid() && n <= u == |rs| && v[..u] == FixedAll(rs[..n]) + Fill(u - n, UNUSED)
      requires file == if ioOk then Log(FixedTo(rs, n)) else Log(rs)
      requires forall i | u <= i < v.Length :: v[i] == UNUSED
      ensures Agrees() <==> n == |rs| && Numbered(rs) && (ioOk || NoMinusOne(rs))
    {
      if n < u {
        assert v[n] == v[..u][n] == UNUSED;
      } else {
        assert rs[..n] == rs && Fill(0, UNUSED) == [];
        assert v[..u] == FixedAll(rs) == FixedTo(rs, n);
        assert forall k | 0 <= k < u :: v[k] == v[..u][k] == Fixed(rs[k]);
        FixesNothing(rs);
      }
    }
  }

  /** A record put on a new log under the id 1: memory and file have parted. */
  method HoleWitness() returns (log: ClarLogState, r: int)
    ensures r == 1 && log.Valid() && !log.Agrees()
  {
    log := new ClarLogState();
    var _ := log.Open(true, 0, true);
    r := log.PutRecord(1, Some(ZERO), true);
  }

  /** The chain of mask tests of clar_modify_record, its first half. */
  method ModifyRoute(e: Entry, mask: bv32, p: Entry) returns (pe: Entry)
    ensures pe == MergedRoute(e, mask, p)
  {
    hide On;
    pe := e;
    if On(mask, CLAR_FIELD_SIZE) { pe := pe.(size := p.size); }
    if On(mask, CLAR_FIELD_FROM) { pe := pe.(fromId := p.fromId); }
    if On(mask, CLAR_FIELD_TO) { pe := pe.(toId := p.toId); }
    if On(mask, CLAR_FIELD_J_FROM) { pe := pe.(jFrom := p.jFrom); }
    if On(mask, CLAR_FIELD_FLAGS) { pe := pe.(flags := p.flags); }
    if On(mask, CLAR_FIELD_HIDE_FLAG) { pe := pe.(hideFlag := p.hideFlag); }
    if On(mask, CLAR_FIELD_SSL_FLAG) { pe := pe.(sslFlag := p.sslFlag); }
  }

  /** Its second half. */
  method ModifyContent(e: Entry, mask: bv32, p: Entry) returns (pe: Entry)
    ensures pe == MergedContent(e, mask, p)
  {
    hide On, SnPrintf, CStr;
    pe := e;
    if On(mask, CLAR_FIELD_APPEAL_FLAG) { pe := pe.(appealFlag := p.appealFlag); }
    if On(mask, CLAR_FIELD_IP) { pe := pe.(ipv6Flag := p.ipv6Flag, ip := p.ip); }
    if On(mask, CLAR_FIELD_LOCALE_ID) { pe := pe.(localeId := p.localeId); }
    if On(mask, CLAR_FIELD_IN_REPLY_TO) { pe := pe.(inReplyTo := p.inReplyTo); }
    if On(mask, CLAR_FIELD_RUN_ID) { pe := pe.(runId := p.runId); }
    if On(mask, CLAR_FIELD_CHARSET) { pe := pe.(charset := SnPrintf(pe.charset, CStr<bv8>(p.charset, 0))); }
    if On(mask, CLAR_FIELD_SUBJECT) { pe := pe.(subj := SnPrintf(pe.subj, CStr<bv8>(p.subj, 0))); }
  }

  // ---------------------------------------------------------------- runs

  /** One operation, all writes succeeding. */
  method Perform(log: ClarLogState, op: Op)
    requires log.Agrees()
    modifies log, log.v
    ensures log.Agrees() && (log.v == old(log.v) || fresh(log.v))
    ensures log.v[..log.u] == Step(old(log.v[..log.u]), op)
  {
    hide EntryFor, Merged, SnPrintf;
    match op
    case Add(a) => var _ := log.AddRecord(a, true);
    case Put(p) => var _ := log.PutRecord(log.u, Some(p), true);
    case UpdateFlags(id, flags) => var _ := log.UpdateFlags(id, flags, true);
    case SetCharset(id, charset) => var _ := log.SetCharset(id, charset, true);
    case Modify(id, mask, p) => var _ := log.ModifyRecord(id, mask, p, true);
    case Reset => var _ := log.CreateNew(true, true);
  }

  /** A new log, and a run of operations on it. */
  method RunOps(ops: seq<Op>) returns (log: ClarLogState)
    ensures fresh(log) && fresh(log.v) && log.Agrees() && log.v[..log.u] == Steps([], ops)
  {
    hide Step;
    log := new ClarLogState();
    var _ := log.Open(true, 0, true);
    var i := 0;
    while i < |ops|
      invariant 0 <= i <= |ops| && fresh(log) && fresh(log.v)
      invariant log.Agrees() && log.v[..log.u] == Steps([], ops[..i])
    {
      Perform(log, ops[i]);
      assert ops[..i + 1][..i] == ops[..i];
      i := i + 1;
    }
    assert ops[..i] == ops;
  }

  /** The file of a log, opened again. */
  method Reopen(file: LogFile) returns (again: ClarLogState)
    requires file.Log? && Numbered(file.records)
    ensures fresh(again) && fresh(again.v) && again.Agrees() && again.v[..again.u] == FixedAll(file.records)
    ensures NoMinusOne(file.records) ==> again.v[..again.u] == file.records && again.file == file
  {
    hide FixedAll;
    FixesNothing(file.records);
    FixedEnds(file.records);
    again := new ClarLogState();
    again.file := file;
    var _ := again.Open(true, |file.records|, true);
    assert file.records[..|file.records|] == file.records && Fill(0, UNUSED) == [];
  }

  /** Any run on a new log, then opening the file again: the second log holds the records that the run made,
      in the same slots, as soon as no operation stored -1 in `from` or `to`. */
  method RunAndReopen(ops: seq<Op>) returns (log: ClarLogState, again: ClarLogState)
    ensures log.Agrees() && log.v[..log.u] == Steps([], ops)
    ensures again.Agrees() && again.v[..again.u] == FixedAll(Steps([], ops))
    ensures (forall k | 0 <= k < |ops| :: NamesSomebody(ops[k])) ==>
              again.v[..again.u] == log.v[..log.u] && again.file == log.file
    ensures (forall k | 0 <= k < |ops| :: ops[k].Add?) ==>
              && AddsKept(log.v[..log.u], ops)
              && ((forall k | 0 <= k < |ops| :: NamesSomebody(ops[k])) ==> AddsKept(again.v[..again.u], ops))
  {
    hide Step, NamesSomebody, FixedAll, AddsKept, Numbered, NoMinusOne;
    log := RunOps(ops);
    NothingWrong();
    RunKeeps([], ops);
    again := Reopen(log.file);
    if forall k | 0 <= k < |ops| :: ops[k].Add? { AddsAreKept(ops); }
  }

  lemma NothingWrong()
    ensures Numbered([]) && NoMinusOne([])
  {
  }
}
