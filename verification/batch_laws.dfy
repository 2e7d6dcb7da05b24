/** What every run of the batch server keeps, and what can stop it. */
module BatchLaws {
  import opened CTypes
  import opened PacketBytes
  import opened CompileRequest
  import opened CompileReply
  import opened SubmitBlocks
  import opened BatchServer

  // ---------------------------------------------------------------- lists of packets

  lemma {:induction false} SerialsUpdate(ps: seq<Packet>, j: nat, p: Packet)
    requires j < |ps| && ps[j].serial == p.serial
    ensures Serials(ps[j := p]) == Serials(ps)
  {
    var n := |ps| - 1;
    if j == n {
      assert ps[j := p][..n] == ps[..n];
    } else {
      assert ps[j := p][..n] == ps[..n][j := p];
      SerialsUpdate(ps[..n], j, p);
    }
  }

  lemma {:induction false} SerialsFront(p: Packet, ps: seq<Packet>)
    ensures Serials([p] + ps) == multiset{p.serial} + Serials(ps)
  {
    var n := |ps| - 1;
    if ps == [] {
      assert [p] + ps == [p] && [p][..0] == [];
    } else {
      assert ([p] + ps)[..n + 1] == [p] + ps[..n];
      SerialsFront(p, ps[..n]);
    }
  }

  lemma {:induction false} RecordSerialsConcat(a: seq<Record>, b: seq<Record>)
    ensures RecordSerials(a + b) == RecordSerials(a) + RecordSerials(b)
  {
    var n := |b| - 1;
    if b == [] {
      assert a + b == a;
    } else {
      assert (a + b)[..|a + b| - 1] == a + b[..n];
      RecordSerialsConcat(a, b[..n]);
    }
  }

  lemma SerialsSnoc(ps: seq<Packet>, p: Packet)
    ensures Serials(ps + [p]) == Serials(ps) + multiset{p.serial}
  {
    assert (ps + [p])[..|ps|] == ps;
  }

  lemma RecordSerialsSnoc(rs: seq<Record>, r: Record)
    ensures RecordSerials(rs + [r]) == RecordSerials(rs) + multiset{r.packet.serial}
  {
    assert (rs + [r])[..|rs|] == rs;
  }

  /** What the checker does with the last packet. */
  lemma CheckLast(ps: seq<Packet>, p: Packet, generate: string -> int)
    ensures Kept(ps + [p]) == if p.completed then Kept(ps) else Kept(ps) + [p]
    ensures Ended(ps + [p], generate) ==
            if p.completed then Ended(ps, generate) + [RecordOf(p, generate)] else Ended(ps, generate)
  {
    hide RecordOf;
    assert (ps + [p])[..|ps|] == ps;
  }

  lemma OneMore(a: multiset<nat>, b: multiset<nat>, one: multiset<nat>)
    ensures a + (b + one) == (a + b) + one && (a + one) + b == (a + b) + one
  {
  }

  /** The checker drops no packet and doubles none. */
  lemma {:induction false} KeptAndEnded(ps: seq<Packet>, generate: string -> int)
    ensures Serials(Kept(ps)) + RecordSerials(Ended(ps, generate)) == Serials(ps)
  {
    if ps == [] {
    } else {
      hide Serials, RecordSerials, Kept, Ended;
      var front, p := ps[..|ps| - 1], ps[|ps| - 1];
      assert ps == front + [p];
      KeptAndEnded(front, generate);
      CheckLast(front, p, generate);
      SerialsSnoc(front, p);
      OneMore(Serials(Kept(front)), RecordSerials(Ended(front, generate)), multiset{p.serial});
      if p.completed {
        RecordSerialsSnoc(Ended(front, generate), RecordOf(p, generate));
      } else {
        SerialsSnoc(Kept(front), p);
      }
    }
  }

  lemma {:induction false} KeptFrom(ps: seq<Packet>)
    ensures forall p | p in Kept(ps) :: p in ps && !p.completed
    ensures NamesOk(ps) ==> NamesOk(Kept(ps))
  {
    if ps == [] {
    } else {
      var n := |ps| - 1;
      KeptFrom(ps[..n]);
      if NamesOk(ps) {
        forall p | p in Kept(ps[..n]) ensures p.name != ps[n].name {
          assert p in ps[..n];
          var k :| 0 <= k < n && ps[k] == p;
        }
      }
    }
  }

  /** Every packet that is not completed stays. */
  lemma {:induction false} KeptHas(ps: seq<Packet>, i: nat)
    requires i < |ps| && !ps[i].completed
    ensures ps[i] in Kept(ps)
  {
    if i < |ps| - 1 { KeptHas(ps[..|ps| - 1], i); }
  }

  lemma {:induction false} EndedFrom(ps: seq<Packet>, generate: string -> int)
    ensures forall r | r in Ended(ps, generate) ::
              && r.packet in ps && r.packet.completed
              && r.errcode == if r.packet.taken then generate(r.packet.name) else -1
  {
    if ps == [] {
    } else {
      EndedFrom(ps[..|ps| - 1], generate);
    }
  }

  /** Every packet stays or is finalized. */
  lemma {:induction false} KeptOrEnded(ps: seq<Packet>, generate: string -> int, contest: int, b: Block<nat>)
    requires Held(ps, contest, b)
    ensures Held(Kept(ps), contest, b) || Gone(Ended(ps, generate), contest, b)
  {
    hide BlockOf;
    var front, last := ps[..|ps| - 1], ps[|ps| - 1];
    assert ps == front + [last];
    CheckLast(front, last, generate);
    if last.taken && BlockOf(contest, last) == b {
      assert last in [last] && RecordOf(last, generate) in [RecordOf(last, generate)];
    } else {
      KeptOrEnded(front, generate, contest, b);
    }
  }

  lemma {:induction false} SerialIn(ps: seq<Packet>, i: nat)
    requires i < |ps|
    ensures Serials(ps)[ps[i].serial] >= 1
  {
    if i < |ps| - 1 { SerialIn(ps[..|ps| - 1], i); }
  }

  lemma {:induction false} SerialTwice(ps: seq<Packet>, i: nat, j: nat)
    requires i < j < |ps| && ps[i].serial == ps[j].serial
    ensures Serials(ps)[ps[i].serial] >= 2
  {
    var n := |ps| - 1;
    if j == n { SerialIn(ps[..n], i); } else { SerialTwice(ps[..n], i, j); }
  }

  lemma {:induction false} RecordIn(rs: seq<Record>, i: nat)
    requires i < |rs|
    ensures RecordSerials(rs)[rs[i].packet.serial] >= 1
  {
    if i < |rs| - 1 { RecordIn(rs[..|rs| - 1], i); }
  }

  lemma {:induction false} RecordTwice(rs: seq<Record>, i: nat, j: nat)
    requires i < j < |rs| && rs[i].packet.serial == rs[j].packet.serial
    ensures RecordSerials(rs)[rs[i].packet.serial] >= 2
  {
    var n := |rs| - 1;
    if j == n { RecordIn(rs[..n], i); } else { RecordTwice(rs[..n], i, j); }
  }

  /** No packet is finalized twice, and none that is finalized is still being handled. */
  lemma AtMostOnce(s: Server)
    requires EachOnce(s)
    ensures forall i, j | 0 <= i < j < |s.finalized| :: s.finalized[i].packet.serial != s.finalized[j].packet.serial
    ensures forall i, j | 0 <= i < |s.packets| && 0 <= j < |s.finalized| ::
              s.packets[i].serial != s.finalized[j].packet.serial
    ensures forall i, j | 0 <= i < j < |s.packets| :: s.packets[i].serial != s.packets[j].serial
    ensures forall i | 0 <= i < |s.packets| :: s.packets[i].serial < s.arrivals
  {
    hide Serials, RecordSerials;
    forall i, j | 0 <= i < j < |s.finalized|
      ensures s.finalized[i].packet.serial != s.finalized[j].packet.serial
    {
      var x := s.finalized[i].packet.serial;
      assert Uses(s, x) <= 1;
      if x == s.finalized[j].packet.serial { RecordTwice(s.finalized, i, j); }
    }
    forall i, j | 0 <= i < |s.packets| && 0 <= j < |s.finalized|
      ensures s.packets[i].serial != s.finalized[j].packet.serial
    {
      assert Uses(s, s.packets[i].serial) <= 1;
      SerialIn(s.packets, i);
      RecordIn(s.finalized, j);
    }
    forall i, j | 0 <= i < j < |s.packets| ensures s.packets[i].serial != s.packets[j].serial {
      assert Uses(s, s.packets[i].serial) <= 1;
      if s.packets[i].serial == s.packets[j].serial { SerialTwice(s.packets, i, j); }
    }
    forall i | 0 <= i < |s.packets| ensures s.packets[i].serial < s.arrivals {
      assert Uses(s, s.packets[i].serial) <= if s.packets[i].serial < s.arrivals then 1 else 0;
      SerialIn(s.packets, i);
    }
  }

  // ---------------------------------------------------------------- which packet a reply reaches

  lemma PacketAtIs(ps: seq<Packet>, serial: nat, j: nat)
    requires j <= |ps| && (j < |ps| ==> ps[j].serial == serial) && forall k | 0 <= k < j :: ps[k].serial != serial
    ensures PacketAt(ps, serial) == j
  {
    var i := PacketAt(ps, serial);
    assert !(i < j) && !(j < i);
  }

  /** A run number finds the block of the packet that had it. */
  lemma FindsPacket(s: Server, contest: int, p: Packet, runId: int)
    requires Disjoint(s.blocks) && BlockOf(contest, p) in s.blocks && HasRun(p, runId)
    ensures Reached(s, contest, runId) == Some(PacketAt(s.packets, p.serial))
  {
    hide Disjoint, FindBlock, PacketAt;
    var n :| 0 <= n < |s.blocks| && s.blocks[n] == BlockOf(contest, p);
    FindsOwnBlock(s.blocks, n, contest, runId);
  }

  /** A run number of a packet that is being handled leads to it. */
  lemma ReachesLive(s: Server, contest: int, j: nat, runId: int)
    requires Inv(s, contest) && j < |s.packets| && HasRun(s.packets[j], runId)
    ensures Reached(s, contest, runId) == Some(j)
  {
    hide EachOnce, Disjoint, PacketsOk, PacketAt, Reached, BlockOf, HasRun;
    assert s.packets[j] in s.packets && s.packets[j].taken by { HasRunTaken(s.packets[j], runId); }
    FindsPacket(s, contest, s.packets[j], runId);
    AtMostOnce(s);
    PacketAtIs(s.packets, s.packets[j].serial, j);
  }

  lemma HasRunTaken(p: Packet, runId: int)
    requires HasRun(p, runId)
    ensures p.taken
  {
  }

  /** One of a packet that was finalized leads to where it was. */
  lemma ReachesGone(s: Server, contest: int, n: nat, runId: int)
    requires Inv(s, contest) && n < |s.finalized| && HasRun(s.finalized[n].packet, runId)
    ensures Reached(s, contest, runId) == Some(|s.packets|)
  {
    hide EachOnce, Disjoint, PacketsOk, PacketAt, Reached, BlockOf, HasRun;
    var r := s.finalized[n];
    assert r in s.finalized && r.packet.taken by { HasRunTaken(r.packet, runId); }
    FindsPacket(s, contest, r.packet, runId);
    AtMostOnce(s);
    PacketAtIs(s.packets, r.packet.serial, |s.packets|);
  }

  /** Nothing else leads anywhere. */
  lemma ReachedFrom(s: Server, contest: int, contestId: int, runId: int)
    requires Inv(s, contest) && Reached(s, contestId, runId).Some?
    ensures contestId == contest && runId >= 0
    ensures (exists j: nat :: j < |s.packets| && HasRun(s.packets[j], runId)) ||
            (exists n: nat :: n < |s.finalized| && HasRun(s.finalized[n].packet, runId))
  {
    hide EachOnce, Disjoint, PacketsOk, PacketAt;
    var b := s.blocks[FindBlock(s.blocks, contestId, runId)];
    assert b in s.blocks && Covers(b, contestId, runId);
    if Held(s.packets, contest, b) {
      var p :| p in s.packets && p.taken && BlockOf(contest, p) == b;
      var j: nat :| j < |s.packets| && s.packets[j] == p;
      assert HasRun(s.packets[j], runId);
    } else {
      var r :| r in s.finalized && r.packet.taken && BlockOf(contest, r.packet) == b;
      var n: nat :| n < |s.finalized| && s.finalized[n] == r;
      assert HasRun(s.finalized[n].packet, runId);
    }
  }

  /** A reply reaches a packet that is being handled exactly when that packet had its run number. */
  lemma ReachesExactly(s: Server, contest: int, contestId: int, runId: int, j: nat)
    requires Inv(s, contest) && j < |s.packets|
    ensures Reached(s, contestId, runId) == Some(j) <==> contestId == contest && HasRun(s.packets[j], runId)
  {
    hide Inv, Reached, HasRun;
    if contestId == contest && HasRun(s.packets[j], runId) { ReachesLive(s, contest, j, runId); }
    if Reached(s, contestId, runId) == Some(j) {
      ReachedFrom(s, contest, contestId, runId);
      if i: nat :| i < |s.packets| && HasRun(s.packets[i], runId) {
        ReachesLive(s, contest, i, runId);
      } else {
        var n: nat :| n < |s.finalized| && HasRun(s.finalized[n].packet, runId);
        ReachesGone(s, contest, n, runId);
      }
    }
  }

  /** It reaches a packet that was freed exactly when a finalized packet had its run number. */
  lemma ReachesFreed(s: Server, contest: int, contestId: int, runId: int)
    requires Inv(s, contest)
    ensures Reached(s, contestId, runId) == Some(|s.packets|) <==>
            contestId == contest && exists n: nat :: n < |s.finalized| && HasRun(s.finalized[n].packet, runId)
  {
    hide Inv, Reached, HasRun;
    if contestId == contest {
      forall n: nat | n < |s.finalized| && HasRun(s.finalized[n].packet, runId)
        ensures Reached(s, contestId, runId) == Some(|s.packets|)
      {
        ReachesGone(s, contest, n, runId);
      }
    }
    if Reached(s, contestId, runId) == Some(|s.packets|) {
      ReachedFrom(s, contest, contestId, runId);
      forall j: nat | j < |s.packets| ensures !HasRun(s.packets[j], runId) {
        ReachesExactly(s, contest, contestId, runId, j);
      }
    }
  }

  // ---------------------------------------------------------------- what a reply does to the counts

  lemma JudgedWaits(p: Packet, k: int, result: Result)
    ensures Waits(Judged(p, k, result)) == Waits(p) - {k}
  {
    var q := Judged(p, k, result);
    forall i ensures i in Waits(q) <==> i in Waits(p) - {k} {
      assert HasVerdict(q.progress, i) <==> i == k || HasVerdict(p.progress, i);
    }
  }

  lemma JudgedKeeps(p: Packet, k: int, result: Result)
    requires CountsOk(p) && p.taken
    ensures CountsOk(Judged(p, k, result))
  {
    var q := Judged(p, k, result);
    JudgedWaits(p, k, result);
    Removed(Waits(p), k);
    forall i ensures HasVerdict(q.progress, i) <==> i == k || HasVerdict(p.progress, i) {}
    assert k in Waits(p) ==> k in QueuedSet(p.submits);
    hide Waits, HasVerdict, QueuedSet;
  }

  lemma SentKeeps(p: Packet, k: int)
    requires CountsOk(p) && p.taken
    ensures CountsOk(Sent(p, k)) && Waits(Sent(p, k)) == Waits(p)
  {
    var q := Sent(p, k);
    forall i ensures HasVerdict(q.progress, i) <==> HasVerdict(p.progress, i) {}
    assert Waits(q) == Waits(p);
    hide Waits, HasVerdict, QueuedSet;
  }

  lemma NewCounts(serial: nat, name: string, base: int, sbs: seq<Submit>)
    ensures CountsOk(NewPacket(serial, name, base, sbs))
  {
    QueuedIs(sbs);
    hide TakeInAll, QueuedSet, CountFate, HasVerdict;
    var p := NewPacket(serial, name, base, sbs);
    assert Waits(p) == QueuedSet(sbs);
    if QueuedSet(sbs) != {} { assert |QueuedSet(sbs)| > 0; }
  }

  /** What a reply changes of the packet that it reaches. */
  predicate SamePlace(p: Packet, q: Packet) {
    p.serial == q.serial && p.name == q.name && p.base == q.base && p.submits == q.submits && p.taken == q.taken
  }

  lemma CompiledKeeps(p: Packet, runId: int, status: int)
    requires CountsOk(p) && p.taken && OnCompiled(p, runId, status).Some?
    ensures var q := OnCompiled(p, runId, status).value;
            && CountsOk(q) && SamePlace(p, q)
            && q.again == p.again + (if status == RUN_OK || runId - p.base in Waits(p) then 0 else 1)
  {
    hide CountsOk, Waits;
    if status == RUN_OK { SentKeeps(p, runId - p.base); } else { JudgedKeeps(p, runId - p.base, Result(status, 0)); }
  }

  lemma TestedKeeps(p: Packet, runId: int, status: int, score: int, xmlOk: bool)
    requires CountsOk(p) && p.taken && OnTested(p, runId, status, score, xmlOk).Some?
    ensures var q := OnTested(p, runId, status, score, xmlOk).value;
            && CountsOk(q) && SamePlace(p, q)
            && q.again == p.again + (if runId - p.base in Waits(p) then 0 else 1)
  {
    hide CountsOk, Waits;
    JudgedKeeps(p, runId - p.base, Result(status, score));
  }

  /** A packet is completed although submits wait exactly when at least as many verdicts came for others. */
  lemma EarlyExactly(p: Packet)
    requires CountsOk(p) && p.taken
    ensures p.completed && Waits(p) != {} <==> 0 < |Waits(p)| <= p.again
  {
    hide HasVerdict;
    assert Waits(p) <= QueuedSet(p.submits);
    if Waits(p) != {} {
      assert |Waits(p)| > 0;
    }
  }

  /** When no verdict came for others, a completed packet has verdicts for exactly its queued submits. */
  lemma CompletedHasAll(p: Packet, i: int)
    requires CountsOk(p) && p.completed && p.again == 0
    ensures HasVerdict(p.progress, i) <==> p.taken && i in QueuedSet(p.submits)
  {
    if p.taken {
      EarlyExactly(p);
      assert i in QueuedSet(p.submits) && !HasVerdict(p.progress, i) ==> i in Waits(p);
    }
  }

  /** The first verdict that does not fit: it completes a packet too early exactly when one submit waits, and it is
      for another. */
  lemma FirstWrongVerdict(p: Packet, k: int, result: Result)
    requires CountsOk(p) && p.taken && p.again == 0
    ensures var q := Judged(p, k, result);
            q.completed && Waits(q) != {} <==> k !in Waits(p) && |Waits(p)| == 1
  {
    JudgedKeeps(p, k, result);
    EarlyExactly(Judged(p, k, result));
    JudgedWaits(p, k, result);
    Removed(Waits(p), k);
    hide Waits, CountsOk, QueuedSet;
  }

  // ---------------------------------------------------------------- every step keeps the invariant

  /** The numbers in use are the same, or there is one more for a packet that has just arrived. */
  lemma SameUses(s: Server, t: Server)
    requires EachOnce(s) && s.arrivals <= t.arrivals
    requires forall x: nat :: Uses(t, x) == Uses(s, x) + if s.arrivals <= x < t.arrivals then 1 else 0
    ensures EachOnce(t)
  {
    hide Uses;
    forall x: nat ensures Uses(t, x) <= if x < t.arrivals then 1 else 0 {
      assert Uses(s, x) <= if x < s.arrivals then 1 else 0;
    }
  }

  lemma HeldAfter(ps: seq<Packet>, j: nat, q: Packet, contest: int, b: Block<nat>)
    requires j < |ps| && SamePlace(ps[j], q) && Held(ps, contest, b)
    ensures Held(ps[j := q], contest, b)
  {
    var p :| p in ps && p.taken && BlockOf(contest, p) == b;
    var i: nat :| i < |ps| && ps[i] == p;
    assert ps[j := q][i] in ps[j := q] && BlockOf(contest, ps[j := q][i]) == b;
  }

  lemma UpdateKeeps(s: Server, contest: int, j: nat, q: Packet)
    requires Inv(s, contest) && j < |s.packets| && CountsOk(q) && SamePlace(s.packets[j], q)
    ensures Inv(s.(packets := s.packets[j := q]), contest)
  {
    hide Serials, RecordSerials, Disjoint, CountsOk, Held, Gone;
    SerialsUpdate(s.packets, j, q);
    var t := s.(packets := s.packets[j := q]);
    SameUses(s, t);
    assert s.packets[j] in s.packets && BlockOf(contest, q) == BlockOf(contest, s.packets[j]);
    forall x | x in t.packets ensures x == q || x in s.packets {}
    hide BlockOf;
    forall b | b in t.blocks ensures Held(t.packets, contest, b) || Gone(t.finalized, contest, b) {
      if Held(s.packets, contest, b) { HeldAfter(s.packets, j, q, contest, b); }
    }
  }

  lemma GoneAfter(rs: seq<Record>, more: seq<Record>, contest: int, b: Block<nat>)
    ensures Gone(rs + more, contest, b) <==> Gone(rs, contest, b) || Gone(more, contest, b)
  {
    hide BlockOf;
  }

  lemma CheckKeepsBlocks(s: Server, contest: int, generate: string -> int)
    requires BlocksOk(s, contest)
    ensures BlocksOk(s.(packets := Kept(s.packets), finalized := s.finalized + Ended(s.packets, generate)), contest)
  {
    hide Disjoint, Kept, Ended, Held, Gone, BlockOf;
    KeptFrom(s.packets);
    EndedFrom(s.packets, generate);
    forall b | b in s.blocks
      ensures Held(Kept(s.packets), contest, b) || Gone(s.finalized + Ended(s.packets, generate), contest, b)
    {
      GoneAfter(s.finalized, Ended(s.packets, generate), contest, b);
      if Held(s.packets, contest, b) { KeptOrEnded(s.packets, generate, contest, b); }
    }
  }

  lemma CheckKeeps(s: Server, contest: int, generate: string -> int)
    requires Inv(s, contest)
    ensures Inv(s.(packets := Kept(s.packets), finalized := s.finalized + Ended(s.packets, generate)), contest)
  {
    hide Serials, RecordSerials, BlocksOk, CountsOk, Kept, Ended;
    KeptAndEnded(s.packets, generate);
    RecordSerialsConcat(s.finalized, Ended(s.packets, generate));
    KeptFrom(s.packets);
    EndedFrom(s.packets, generate);
    CheckKeepsBlocks(s, contest, generate);
    var t := s.(packets := Kept(s.packets), finalized := s.finalized + Ended(s.packets, generate));
    forall x: nat ensures Uses(t, x) == Uses(s, x) {
      assert (Serials(t.packets) + RecordSerials(Ended(s.packets, generate)))[x] == Serials(s.packets)[x];
    }
    SameUses(s, t);
  }

  /** A packet that could not be read comes in front. */
  lemma FailedKeeps(s: Server, contest: int, name: string, base: int, sbs: seq<Submit>, next: int)
    requires Inv(s, contest) && !Handled(s, name) && next >= 0
    ensures Inv(WithPacket(s.(next := next), FailedPacket(s.arrivals, name, base, sbs)), contest)
  {
    hide Serials, RecordSerials, Disjoint, BlockOf, Gone;
    var p := FailedPacket(s.arrivals, name, base, sbs);
    var t := WithPacket(s.(next := next), p);
    SerialsFront(p, s.packets);
    SameUses(s, t);
    assert CountsOk(p);
    hide CountsOk;
    forall b | b in s.blocks && Held(s.packets, contest, b) ensures Held(t.packets, contest, b) {}
  }

  lemma TakenBlocks(s: Server, contest: int, p: Packet)
    requires BlocksOk(s, contest) && p.taken && CanAdd(s.blocks, contest, p.base, |p.submits|)
    ensures BlocksOk(s.(blocks := s.blocks + [BlockOf(contest, p)], packets := [p] + s.packets), contest)
  {
    var b := BlockOf(contest, p);
    assert b.firstRunId >= 0;
    hide Disjoint, CanAdd, BlockOf, Gone;
    assert p in [p] + s.packets && b in [b];
    forall c | c in s.blocks && Held(s.packets, contest, c) ensures Held([p] + s.packets, contest, c) {}
    AddBlock(s.blocks, contest, p);
  }

  lemma AddBlock(bs: seq<Block<nat>>, contest: int, p: Packet)
    requires Disjoint(bs) && CanAdd(bs, contest, p.base, |p.submits|)
    ensures Disjoint(bs + [BlockOf(contest, p)])
  {
    hide Disjoint, CanAdd;
    AddKeepsDisjoint(bs, BlockOf(contest, p));
  }

  /** A packet that was taken in comes in front, and its block at the end. */
  lemma TakenKeeps(s: Server, contest: int, name: string, base: int, sbs: seq<Submit>, next: int)
    requires Inv(s, contest) && !Handled(s, name) && CanAdd(s.blocks, contest, base, |sbs|) && next >= 0
    ensures var t := s.(next := next, blocks := s.blocks + [Block(contest, base, |sbs|, s.arrivals)]);
            Inv(WithPacket(t, NewPacket(s.arrivals, name, base, sbs)), contest)
  {
    hide Serials, RecordSerials, BlocksOk, CountsOk, CanAdd, TakeInAll, CountFate;
    var p := NewPacket(s.arrivals, name, base, sbs);
    var t := WithPacket(s.(next := next, blocks := s.blocks + [BlockOf(contest, p)]), p);
    SerialsFront(p, s.packets);
    SameUses(s, t);
    NewCounts(s.arrivals, name, base, sbs);
    TakenBlocks(s, contest, p);
    SameBlocksOk(s.(blocks := s.blocks + [BlockOf(contest, p)], packets := [p] + s.packets), t, contest);
  }

  lemma SameBlocksOk(s: Server, t: Server, contest: int)
    requires BlocksOk(s, contest) && s.blocks == t.blocks && s.packets == t.packets && s.finalized == t.finalized
    ensures BlocksOk(t, contest)
  {
  }

  /** The two ways in which a packet that is read gets into the list. */
  lemma ArrivesFailed(s: Server, contest: int, inp: Incoming)
    requires Reads(s, inp) && (!Numbers(inp) || !inp.bindOk)
    ensures var base := BaseFor(s, |inp.submits|);
            Arrival(s, contest, inp) ==
            if Numbers(inp)
            then Some(WithPacket(s.(next := base + |inp.submits| + 1),
                                 FailedPacket(s.arrivals, inp.name, base, inp.submits)))
            else Some(WithPacket(s.(next := s.next), FailedPacket(s.arrivals, inp.name, 0, inp.submits)))
  {
    hide Reads, Numbers, WithPacket, FailedPacket, BaseFor;
    assert s.(next := s.next) == s;
  }

  lemma ArrivesTaken(s: Server, contest: int, inp: Incoming)
    requires Reads(s, inp) && Numbers(inp) && inp.bindOk
    ensures var count, base := |inp.submits|, BaseFor(s, |inp.submits|);
            var t := s.(next := base + count + 1, blocks := s.blocks + [Block(contest, base, count, s.arrivals)]);
            Arrival(s, contest, inp) ==
            if CanAdd(s.blocks, contest, base, count)
            then Some(WithPacket(t, NewPacket(s.arrivals, inp.name, base, inp.submits))) else None
  {
    hide Reads, Numbers, WithPacket, NewPacket, BaseFor, CanAdd;
  }

  lemma NotRead(s: Server, contest: int, inp: Incoming)
    requires !Reads(s, inp)
    ensures Arrival(s, contest, inp) == Some(s)
  {
  }

  lemma NextOk(s: Server, contest: int, count: nat)
    requires Inv(s, contest)
    ensures s.next >= 0 && BaseFor(s, count) >= 0
  {
    hide EachOnce, PacketsOk, BlocksOk, NamesOk;
  }

  lemma ArrivalKeeps(s: Server, contest: int, inp: Incoming)
    requires Inv(s, contest) && Arrival(s, contest, inp).Some?
    ensures Inv(Arrival(s, contest, inp).value, contest)
  {
    hide Inv, Arrival, Handled, CanAdd, NewPacket, FailedPacket, WithPacket, BaseFor;
    var count, base := |inp.submits|, BaseFor(s, |inp.submits|);
    NextOk(s, contest, count);
    if !Reads(s, inp) {
      NotRead(s, contest, inp);
    } else {
      if !Numbers(inp) || !inp.bindOk {
        ArrivesFailed(s, contest, inp);
        FailedKeeps(s, contest, inp.name, 0, inp.submits, s.next);
        FailedKeeps(s, contest, inp.name, base, inp.submits, base + count + 1);
      } else {
        ArrivesTaken(s, contest, inp);
        TakenKeeps(s, contest, inp.name, base, inp.submits, base + count + 1);
      }
    }
  }

  /** What the reader of compile replies lets through. */
  lemma ReadReply(data: seq<Byte>)
    requires ReplyReadSpec(data).Some?
    ensures var r := ReplyReadSpec(data).value; r.contestId > 0 && r.runId >= 0 && ValidStatus(r.status)
  {
    hide WordsOf, Signed, Align;
  }

  /** A packet that a reply reaches was taken in, and had its number. */
  lemma ReachedPacket(s: Server, contest: int, contestId: int, runId: int, j: nat)
    requires Inv(s, contest) && j < |s.packets| && Reached(s, contestId, runId) == Some(j)
    ensures contestId == contest && CountsOk(s.packets[j]) && s.packets[j].taken && HasRun(s.packets[j], runId)
  {
    ReachesExactly(s, contest, contestId, runId, j);
    hide EachOnce, BlocksOk, Reached, CountsOk;
    assert s.packets[j] in s.packets;
  }

  lemma CompileRepliedKeeps(s: Server, contest: int, reply: Reply, reportOk: bool)
    requires Inv(s, contest) && CompileReplied(s, reply, reportOk).Some?
    ensures Inv(CompileReplied(s, reply, reportOk).value, contest)
  {
    hide Inv, Reached, OnCompiled, HasRun, CountsOk, Waits, SamePlace;
    if !Dropped(s, reply.contestId, reply.runId, reportOk) {
      var j := Reached(s, reply.contestId, reply.runId).value;
      ReachedPacket(s, contest, reply.contestId, reply.runId, j);
      CompiledKeeps(s.packets[j], reply.runId, reply.status);
      UpdateKeeps(s, contest, j, OnCompiled(s.packets[j], reply.runId, reply.status).value);
    }
  }

  lemma RunRepliedKeeps(s: Server, contest: int, e: Event)
    requires Inv(s, contest) && e.Tested? && RunReplied(s, e).Some?
    ensures Inv(RunReplied(s, e).value, contest)
  {
    hide Inv, Reached, OnTested, HasRun, CountsOk, Waits, SamePlace;
    if !Dropped(s, e.contestId, e.runId, e.reportOk) {
      var j := Reached(s, e.contestId, e.runId).value;
      ReachedPacket(s, contest, e.contestId, e.runId, j);
      TestedKeeps(s.packets[j], e.runId, e.status, e.score, e.xmlOk);
      UpdateKeeps(s, contest, j, OnTested(s.packets[j], e.runId, e.status, e.score, e.xmlOk).value);
    }
  }

  /** Every step keeps the invariant, whatever replies come. */
  lemma StepKeeps(s: Server, contest: int, e: Event)
    requires Inv(s, contest) && Step(s, contest, e).Some?
    ensures Inv(Step(s, contest, e).value, contest)
  {
    hide Inv, Arrival, CompileReplied, RunReplied, ReplyReadSpec, Kept, Ended;
    match e
    case Arrive(inp) => ArrivalKeeps(s, contest, inp);
    case Compiled(data, reportOk) =>
      if ReplyReadSpec(data).Some? { CompileRepliedKeeps(s, contest, ReplyReadSpec(data).value, reportOk); }
    case Tested(_, _, _, _, _, _) => RunRepliedKeeps(s, contest, e);
    case Check(generate) => CheckKeeps(s, contest, generate);
  }

  lemma {:induction false} RunKeeps(s: Server, contest: int, es: seq<Event>)
    requires Inv(s, contest) && Steps(s, contest, es).Some?
    ensures Inv(Steps(s, contest, es).value, contest)
    decreases |es|
  {
    if es == [] {
    } else {
      hide Inv, Step;
      StepKeeps(s, contest, es[0]);
      RunKeeps(Step(s, contest, es[0]).value, contest, es[1..]);
    }
  }

  /** Whatever replies came, the counters of a packet add up to its queued submits. */
  lemma Conservation(s: Server, contest: int, p: Packet)
    requires Inv(s, contest) && p in s.packets && p.taken
    ensures p.pending + p.processed == CountFate(p.submits, Queued)
    ensures p.pending == |Waits(p)| - p.again
    ensures p.completed <==> CountFate(p.submits, Queued) > 0 && p.pending <= 0
  {
    hide EachOnce, BlocksOk, CountFate, Waits, QueuedSet;
    QueuedIs(p.submits);
    assert CountsOk(p) && |QueuedSet(p.submits)| == CountFate(p.submits, Queued);
    if QueuedSet(p.submits) != {} { assert |QueuedSet(p.submits)| > 0; }
  }

  // ---------------------------------------------------------------- verdicts that come twice

  lemma NoneAgainUpdate(s: Server, j: nat, q: Packet, again: nat)
    requires j < |s.packets| && q.again == s.packets[j].again + again
    ensures NoneAgain(s.(packets := s.packets[j := q])) <==> NoneAgain(s) && again == 0
  {
    var t := s.(packets := s.packets[j := q]);
    assert t.packets[j] == q && q in t.packets && s.packets[j] in s.packets;
    if NoneAgain(t) {
      forall p | p in s.packets ensures p.again == 0 {
        var i :| 0 <= i < |s.packets| && s.packets[i] == p;
        assert t.packets[i] in t.packets;
      }
    }
  }

  lemma {:induction false} CheckAgain(ps: seq<Packet>, generate: string -> int)
    ensures (forall p | p in ps :: p.again == 0) <==>
            (forall p | p in Kept(ps) :: p.again == 0) && (forall r | r in Ended(ps, generate) :: r.packet.again == 0)
  {
    if ps == [] {
    } else {
      var front, last := ps[..|ps| - 1], ps[|ps| - 1];
      assert ps == front + [last];
      CheckAgain(front, generate);
      CheckLast(front, last, generate);
      hide Kept, Ended;
      if last.completed {
        assert Ended(ps, generate)[|Ended(ps, generate)| - 1] == RecordOf(last, generate);
      } else {
        assert Kept(ps)[|Kept(ps)| - 1] == last;
      }
    }
  }

  lemma ArrivalAgain(s: Server, contest: int, inp: Incoming)
    requires Arrival(s, contest, inp).Some?
    ensures NoneAgain(Arrival(s, contest, inp).value) <==> NoneAgain(s)
  {
    hide Handled, CanAdd, TakeInAll, CountFate;
    var t := Arrival(s, contest, inp).value;
    if |t.packets| == |s.packets| + 1 {
      assert t.packets == [t.packets[0]] + s.packets && t.packets[0].again == 0 && t.finalized == s.finalized;
      assert forall p :: p in t.packets <==> p == t.packets[0] || p in s.packets;
    }
  }

  lemma AwaitedAt(s: Server, e: Event, j: nat, k: int)
    requires Judges(s, e, j, k)
    ensures Awaited(s, e) <==> k in Waits(s.packets[j])
  {
    hide Waits, Reached, Verdict;
  }

  lemma CompileRepliedAgain(s: Server, contest: int, e: Event)
    requires Inv(s, contest) && e.Compiled? && Step(s, contest, e).Some?
    ensures NoneAgain(Step(s, contest, e).value) <==> NoneAgain(s) && Awaited(s, e)
  {
    hide Inv, Reached, ReplyReadSpec, NoneAgain, Waits, OnCompiled, HasRun, CountsOk;
    if ReplyReadSpec(e.data).Some? {
      var reply := ReplyReadSpec(e.data).value;
      ReadReply(e.data);
      if !Dropped(s, reply.contestId, reply.runId, e.reportOk) {
        var j := Reached(s, reply.contestId, reply.runId).value;
        var p, k := s.packets[j], reply.runId - s.packets[j].base;
        ReachedPacket(s, contest, reply.contestId, reply.runId, j);
        CompiledKeeps(p, reply.runId, reply.status);
        NoneAgainUpdate(s, j, OnCompiled(p, reply.runId, reply.status).value,
                        if reply.status == RUN_OK || k in Waits(p) then 0 else 1);
        if reply.status != RUN_OK { AwaitedAt(s, e, j, k); }
      }
    }
  }

  lemma RunRepliedAgain(s: Server, contest: int, e: Event)
    requires Inv(s, contest) && e.Tested? && Step(s, contest, e).Some?
    ensures NoneAgain(Step(s, contest, e).value) <==> NoneAgain(s) && Awaited(s, e)
  {
    hide Inv, Reached, NoneAgain, Waits, OnTested, HasRun, CountsOk;
    if !Dropped(s, e.contestId, e.runId, e.reportOk) {
      var j := Reached(s, e.contestId, e.runId).value;
      var p, k := s.packets[j], e.runId - s.packets[j].base;
      ReachedPacket(s, contest, e.contestId, e.runId, j);
      TestedKeeps(p, e.runId, e.status, e.score, e.xmlOk);
      NoneAgainUpdate(s, j, OnTested(p, e.runId, e.status, e.score, e.xmlOk).value, if k in Waits(p) then 0 else 1);
      AwaitedAt(s, e, j, k);
    }
  }

  lemma StepAgain(s: Server, contest: int, e: Event)
    requires Inv(s, contest) && Step(s, contest, e).Some?
    ensures NoneAgain(Step(s, contest, e).value) <==> NoneAgain(s) && Awaited(s, e)
  {
    match e
    case Arrive(inp) =>
      hide Arrival;
      ArrivalAgain(s, contest, inp);
    case Compiled(_, _) => CompileRepliedAgain(s, contest, e);
    case Tested(_, _, _, _, _, _) => RunRepliedAgain(s, contest, e);
    case Check(generate) =>
      hide Kept, Ended;
      CheckAgain(s.packets, generate);
  }

  /** Over every run the count of misplaced verdicts stays 0 exactly when each verdict was awaited. */
  lemma {:induction false} RunAgain(s: Server, contest: int, es: seq<Event>)
    requires Inv(s, contest) && Steps(s, contest, es).Some?
    ensures NoneAgain(Steps(s, contest, es).value) <==> NoneAgain(s) && NoReplyTwice(s, contest, es)
    decreases |es|
  {
    if es == [] {
    } else {
      hide Inv, Step, Awaited, NoneAgain;
      var t := Step(s, contest, es[0]).value;
      StepKeeps(s, contest, es[0]);
      StepAgain(s, contest, es[0]);
      RunAgain(t, contest, es[1..]);
    }
  }

  /** What was finalized: when no verdict was misplaced, verdicts for exactly the queued submits; otherwise a packet
      may lack at most as many as were misplaced. */
  lemma FinalizedHas(s: Server, contest: int, r: Record)
    requires Inv(s, contest) && r in s.finalized
    ensures r.packet.taken ==> |Waits(r.packet)| <= r.packet.again
    ensures r.packet.again == 0 ==> VerdictForAll(r)
  {
    hide EachOnce, BlocksOk, Waits, HasVerdict, QueuedSet;
    assert CountsOk(r.packet) && r.packet.completed;
    if r.packet.taken { EarlyExactly(r.packet); }
    if r.packet.again == 0 {
      forall i ensures HasVerdict(r.packet.progress, i) <==> r.packet.taken && i in QueuedSet(r.packet.submits) {
        CompletedHasAll(r.packet, i);
      }
    }
  }

  // ---------------------------------------------------------------- what can stop the server

  /** The run number is that of a packet that was freed. */
  predicate Freed(s: Server, runId: int) {
    exists n: nat :: n < |s.finalized| && HasRun(s.finalized[n].packet, runId)
  }

  /** It is that of a submit that cannot be sent on, or not even be read. */
  predicate CannotRun(s: Server, runId: int) {
    exists j: nat :: j < |s.packets| && HasRun(s.packets[j], runId) &&
                     !CanRun(s.packets[j].submits[runId - s.packets[j].base])
  }

  predicate CannotJudge(s: Server, runId: int, xmlOk: bool) {
    exists j: nat :: j < |s.packets| && HasRun(s.packets[j], runId) &&
                     (!xmlOk || s.packets[j].submits[runId - s.packets[j].base].Missing?)
  }

  /** A compile reply stops the server exactly when it is for a freed packet, or good news for a submit that cannot
      be sent on. */
  lemma CompiledStops(s: Server, contest: int, data: seq<Byte>, reportOk: bool)
    requires Inv(s, contest)
    ensures Step(s, contest, Compiled(data, reportOk)).None? <==>
            && ReplyReadSpec(data).Some? && reportOk && ReplyReadSpec(data).value.contestId == contest
            && var r := ReplyReadSpec(data).value;
               Freed(s, r.runId) || (r.status == RUN_OK && CannotRun(s, r.runId))
  {
    hide Inv, Reached, ReplyReadSpec, Judged, Sent, CanRun;
    if ReplyReadSpec(data).Some? && reportOk {
      var r := ReplyReadSpec(data).value;
      ReadReply(data);
      ReachesFreed(s, contest, r.contestId, r.runId);
      forall j: nat | j < |s.packets|
        ensures Reached(s, r.contestId, r.runId) == Some(j) <==> r.contestId == contest && HasRun(s.packets[j], r.runId)
      {
        ReachesExactly(s, contest, r.contestId, r.runId, j);
      }
    }
  }

  /** A run reply stops it exactly when it is for a freed packet, or for a submit that cannot be read, or when its
      report cannot be parsed. */
  lemma TestedStops(s: Server, contest: int, e: Event)
    requires Inv(s, contest) && contest > 0 && e.Tested?
    ensures Step(s, contest, e).None? <==>
            e.reportOk && e.contestId == contest && (Freed(s, e.runId) || CannotJudge(s, e.runId, e.xmlOk))
  {
    hide Inv, Reached, Judged;
    if e.reportOk {
      ReachesFreed(s, contest, e.contestId, e.runId);
      if Reached(s, e.contestId, e.runId).Some? { ReachedFrom(s, contest, e.contestId, e.runId); }
      forall j: nat | j < |s.packets|
        ensures Reached(s, e.contestId, e.runId) == Some(j) <==> e.contestId == contest && HasRun(s.packets[j], e.runId)
      {
        ReachesExactly(s, contest, e.contestId, e.runId, j);
      }
    }
  }

  /** No compile reply for a queued submit of a packet being handled stops the server, and a run reply only when its
      report cannot be parsed. */
  lemma QueuedNeverStops(s: Server, contest: int, j: nat, k: int, e: Event)
    requires Inv(s, contest) && contest > 0 && j < |s.packets|
    requires s.packets[j].taken && k in QueuedSet(s.packets[j].submits)
    requires e.Compiled? ==> var r := ReplyReadSpec(e.data);
                             r.Some? && r.value.contestId == contest && r.value.runId == s.packets[j].base + k
    requires e.Tested? ==> e.contestId == contest && e.runId == s.packets[j].base + k
    ensures e.Compiled? ==> Step(s, contest, e).Some?
    ensures e.Tested? ==> (Step(s, contest, e).Some? <==> e.reportOk ==> e.xmlOk)
  {
    hide Inv, Reached, ReplyReadSpec, Judged, Sent;
    var runId := s.packets[j].base + k;
    assert HasRun(s.packets[j], runId) && CanRun(s.packets[j].submits[k]);
    ReachesLive(s, contest, j, runId);
    ReachedFrom(s, contest, contest, runId);
    if e.Compiled? { ReadReply(e.data); }
  }

  /** A packet stops the server exactly when it can be read and bound and either has no submits or is given a run
      number that belongs to another packet already. */
  lemma ArrivalStops(s: Server, contest: int, inp: Incoming)
    requires Inv(s, contest) && contest > 0
    ensures Arrival(s, contest, inp).None? <==>
            Reads(s, inp) && Numbers(inp) && inp.bindOk &&
            (inp.submits == [] ||
             exists i, r | 0 <= i < |s.blocks| && Covers(s.blocks[i], contest, r) ::
               BaseFor(s, |inp.submits|) <= r < BaseFor(s, |inp.submits|) + |inp.submits|)
  {
    hide EachOnce, PacketsOk, TakeInAll, Overlaps, Covers, Held, Gone;
    var count, base := |inp.submits|, BaseFor(s, |inp.submits|);
    if count > 0 {
      forall i | 0 <= i < |s.blocks|
        ensures Overlaps(s.blocks[i], contest, base, count) <==>
                exists r :: Covers(s.blocks[i], contest, r) && base <= r < base + count
      {
        OverlapMeans(s.blocks[i], contest, base, count);
      }
    }
  }

  /** All run numbers given so far lie below the next one. */
  predicate Unwrapped(s: Server) {
    forall b | b in s.blocks :: b.firstRunId + b.submitCount <= s.next
  }

  /** Until the numbers wrap, no packet with submits stops the server. */
  lemma NoStopBeforeWrap(s: Server, contest: int, inp: Incoming)
    requires Inv(s, contest) && contest > 0 && Unwrapped(s)
    requires inp.submits != [] && s.next + |inp.submits| < 1_000_000
    ensures Arrival(s, contest, inp).Some? && Unwrapped(Arrival(s, contest, inp).value)
  {
    hide EachOnce, PacketsOk, TakeInAll, NamesOk, Held, Gone;
  }

  /** After the wrap a packet stops the server exactly when some packet of its contest had one of the first
      numbers; packets that were finalized keep theirs. */
  lemma WrapStops(s: Server, contest: int, inp: Incoming)
    requires Inv(s, contest) && contest > 0 && Reads(s, inp) && Numbers(inp) && inp.bindOk
    requires inp.submits != [] && s.next + |inp.submits| >= 1_000_000
    ensures Arrival(s, contest, inp).None? <==>
            exists b | b in s.blocks :: b.contestId == contest && b.firstRunId < |inp.submits|
  {
    hide EachOnce, PacketsOk, TakeInAll, NamesOk, Held, Gone;
    assert BaseFor(s, |inp.submits|) == 0;
  }

  // ---------------------------------------------------------------- witnesses

  const START := Server(0, 0, [], [], [])

  lemma StartOk(contest: int)
    ensures Inv(START, contest) && Unwrapped(START)
  {
  }

  function Plain(name: string, sbs: seq<Submit>): Event { Arrive(Incoming(name, true, true, true, true, true, sbs)) }

  const GOOD := Submit(false, true, true, 1, true, false, true, true)

  /** A packet without submits stops the server. */
  lemma EmptyPacketStops()
    ensures Step(START, 1, Plain("a", [])) == None
  {
  }

  /** So do a packet with one submit and a later one with 999998. */
  lemma WrapWitness(many: seq<Submit>)
    requires |many| == 999998
    ensures Steps(START, 1, [Plain("a", [GOOD]), Plain("b", many)]) == None
  {
    hide TakeInAll;
    var es := [Plain("a", [GOOD]), Plain("b", many)];
    var s := Step(START, 1, es[0]).value;
    assert s.next == 2 && s.blocks == [Block(1, 0, 1, 0)] && s.packets[0].name == "a";
    assert Overlaps(s.blocks[0], 1, 0, 999998);
    assert es[1..] == [es[1]] && Step(s, 1, es[1]) == None;
  }

  /** The packet of a compile server that says "compilation error" for run 0 of contest 1. */
  const REPLY := Reply(0, 1, 0, RUN_COMPILE_ERR, 0, 0, 0, 0, 0, 0, 0, [], 0, [0, 0, 0, 0])

  lemma ReplyIsRead()
    ensures ReplyReadable(REPLY) && ReplyWriteSpec(REPLY).Some?
    ensures ReplyReadSpec(ReplyWriteSpec(REPLY).value) == Some(REPLY)
  {
    hide ReplyHeader, Words, ReplyReadSpec, Align, Padded;
    AlignZero();
    ReplyRoundTrip(REPLY);
    assert REPLY.runBlock[..0] == REPLY.runBlock;
  }

  /** The servers in a run of two packets. */
  function One(m: Progress, sbs: seq<Submit>, pending: int, processed: nat, again: nat, completed: bool): Packet {
    Packet(0, "a", 0, sbs, true, m, pending, processed, again, completed)
  }

  function Holding(p: Packet): Server { Server(1, |p.submits| + 1, [Block(1, 0, |p.submits|, 0)], [p], []) }

  lemma AllQueued(sbs: seq<Submit>)
    requires sbs == [GOOD] || sbs == [GOOD, GOOD]
    ensures CountFate(sbs, Queued) == |sbs|
  {
    assert FateOf(GOOD) == Queued;
    hide FateOf;
    assert CountFate([], Queued) == 0;
    assert [GOOD][1..] == [] && CountFate([GOOD], Queued) == 1;
    assert [GOOD, GOOD][1..] == [GOOD];
  }

  /** The first packet to arrive. */
  lemma FirstArrives(sbs: seq<Submit>)
    requires 0 < |sbs| < MAX_RUN_ID
    ensures Step(START, 1, Plain("a", sbs)) ==
            Some(Holding(One(TakeInAll(map[], 0, sbs), sbs, CountFate(sbs, Queued), 0, 0, false)))
  {
    hide TakeInAll, CountFate, Arrival, CanAdd, Reads, Numbers, BaseFor;
    var inp := Plain("a", sbs).inp;
    FirstIsRead(inp);
    ArrivesTaken(START, 1, inp);
    var p := NewPacket(0, "a", 0, sbs);
    assert [p] + [] == [p] && [] + [Block(1, 0, |sbs|, 0)] == [Block(1, 0, |sbs|, 0)];
  }

  lemma FirstIsRead(inp: Incoming)
    requires inp.classKnown && inp.parseOk && inp.examKnown && inp.contestOk && 0 < |inp.submits| < MAX_RUN_ID
    ensures Reads(START, inp) && Numbers(inp) && BaseFor(START, |inp.submits|) == 0
    ensures CanAdd(START.blocks, 1, 0, |inp.submits|)
  {
  }

  lemma OneArrives(sbs: seq<Submit>)
    requires sbs == [GOOD] || sbs == [GOOD, GOOD]
    ensures Step(START, 1, Plain("a", sbs)) ==
            Some(Holding(One(TakeInAll(map[], 0, sbs), sbs, |sbs|, 0, 0, false)))
  {
    hide Step, TakeInAll, CountFate, One;
    AllQueued(sbs);
    FirstArrives(sbs);
  }

  /** What the reply does to the first submit of the packet. */
  lemma OneFails(p: Packet, data: seq<Byte>)
    requires p.serial == 0 && p.base == 0 && |p.submits| > 0 && ReplyReadSpec(data) == Some(REPLY)
    ensures Step(Holding(p), 1, Compiled(data, true)) ==
            Some(Holding(Judged(p, 0, Result(RUN_COMPILE_ERR, 0))))
  {
    hide ReplyReadSpec, Judged;
    var s := Holding(p);
    assert Covers(s.blocks[0], 1, 0) && Reached(s, 1, 0) == Some(0);
    var q := Judged(p, 0, Result(RUN_COMPILE_ERR, 0));
    assert OnCompiled(p, 0, RUN_COMPILE_ERR) == Some(q);
    assert q.submits == p.submits by { JudgedPlace(p, 0, Result(RUN_COMPILE_ERR, 0)); }
    assert s.packets[0 := q] == [q];
  }

  lemma JudgedPlace(p: Packet, k: int, result: Result)
    ensures SamePlace(p, Judged(p, k, result))
  {
  }

  lemma OneEnds(p: Packet, generate: string -> int)
    requires p.completed
    ensures Step(Holding(p), 1, Check(generate)) ==
            Some(Holding(p).(packets := [], finalized := [RecordOf(p, generate)]))
  {
    assert [] + [p] == [p];
    CheckLast([], p, generate);
    assert [] + [RecordOf(p, generate)] == [RecordOf(p, generate)];
  }

  lemma NobodyThere(s: Server, data: seq<Byte>)
    requires s.blocks == [Block(1, 0, 1, 0)] && s.packets == [] && ReplyReadSpec(data) == Some(REPLY)
    ensures Step(s, 1, Compiled(data, true)) == None
  {
    hide ReplyReadSpec;
    assert Covers(s.blocks[0], 1, 0) && Reached(s, 1, 0) == Some(0);
  }

  lemma StepsCons(s: Server, contest: int, e: Event, es: seq<Event>)
    ensures Steps(s, contest, [e] + es) ==
            if Step(s, contest, e).None? then None else Steps(Step(s, contest, e).value, contest, es)
  {
    hide Step;
    assert ([e] + es)[1..] == es;
  }

  /** A second answer to a request reaches a packet that is no more when the checker came in between. */
  lemma LateReply(generate: string -> int, data: seq<Byte>)
    requires ReplyReadSpec(data) == Some(REPLY)
    ensures Steps(START, 1, [Plain("a", [GOOD]), Compiled(data, true), Check(generate), Compiled(data, true)]) == None
  {
    hide Step, Steps, TakeInAll, Waits, ReplyReadSpec;
    var failed := Compiled(data, true);
    var p := One(TakeInAll(map[], 0, [GOOD]), [GOOD], 1, 0, 0, false);
    var q := Judged(p, 0, Result(RUN_COMPILE_ERR, 0));
    OneArrives([GOOD]);
    OneFails(p, data);
    OneEnds(q, generate);
    var t := Holding(q).(packets := [], finalized := [RecordOf(q, generate)]);
    NobodyThere(t, data);
    StepsCons(START, 1, Plain("a", [GOOD]), [failed, Check(generate), failed]);
    StepsCons(Holding(p), 1, failed, [Check(generate), failed]);
    StepsCons(Holding(q), 1, Check(generate), [failed]);
    StepsCons(t, 1, failed, []);
    assert [failed] + [] == [failed];
    assert [Plain("a", [GOOD])] + [failed, Check(generate), failed] ==
           [Plain("a", [GOOD]), failed, Check(generate), failed];
    assert [failed] + [Check(generate), failed] == [failed, Check(generate), failed];
    assert [Check(generate)] + [failed] == [Check(generate), failed];
  }

  /** The same failed compilation reported twice for the first of two submits: the packet is finalized while the
      second submit has no verdict. */
  lemma LostVerdict(generate: string -> int, data: seq<Byte>)
    requires ReplyReadSpec(data) == Some(REPLY)
    ensures var es := [Plain("a", [GOOD, GOOD]), Compiled(data, true), Compiled(data, true), Check(generate)];
            var t := Steps(START, 1, es);
            t.Some? && |t.value.finalized| == 1 && 1 in Waits(t.value.finalized[0].packet)
  {
    hide Step, Steps, TakeInAll, Waits, ReplyReadSpec, QueuedSet;
    var failed, sbs := Compiled(data, true), [GOOD, GOOD];
    var p := One(TakeInAll(map[], 0, sbs), sbs, 2, 0, 0, false);
    var q := Judged(p, 0, Result(RUN_COMPILE_ERR, 0));
    var r := Judged(q, 0, Result(RUN_COMPILE_ERR, 0));
    OneArrives(sbs);
    OneFails(p, data);
    OneFails(q, data);
    OneEnds(r, generate);
    var t := Holding(r).(packets := [], finalized := [RecordOf(r, generate)]);
    SecondWaits(p);
    JudgedWaits(p, 0, Result(RUN_COMPILE_ERR, 0));
    JudgedWaits(q, 0, Result(RUN_COMPILE_ERR, 0));
    StepsCons(START, 1, Plain("a", sbs), [failed, failed, Check(generate)]);
    StepsCons(Holding(p), 1, failed, [failed, Check(generate)]);
    StepsCons(Holding(q), 1, failed, [Check(generate)]);
    StepsCons(Holding(r), 1, Check(generate), []);
    assert Steps(t, 1, []) == Some(t) by { NoSteps(t); }
    assert [Check(generate)] + [] == [Check(generate)];
    assert [Plain("a", sbs)] + [failed, failed, Check(generate)] == [Plain("a", sbs), failed, failed, Check(generate)];
    assert [failed] + [failed, Check(generate)] == [failed, failed, Check(generate)];
    assert [failed] + [Check(generate)] == [failed, Check(generate)];
  }

  lemma NoSteps(s: Server)
    ensures Steps(s, 1, []) == Some(s)
  {
  }

  lemma SecondWaits(p: Packet)
    requires p.submits == [GOOD, GOOD] && p.progress == TakeInAll(map[], 0, p.submits)
    ensures 1 in Waits(p)
  {
    QueuedIs(p.submits);
    assert QueuedAt(p.submits, 0, 1);
  }
}
