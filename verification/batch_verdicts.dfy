/** Which verdicts the batch server stores: those that the events bring, for the run numbers that they name. */
module BatchVerdicts {
  import opened CTypes
  import opened PacketBytes
  import opened CompileReply
  import opened SubmitBlocks
  import opened BatchServer
  import opened BatchLaws

  /** The run number and the verdict that an event brings: a failed compilation has no score, a run reply brings its
      status and its score. Replies for other contests, or for numbers that no packet had, bring none. */
  function Brings(s: Server, contest: int, e: Event): Option<(int, Result)> {
    match e
    case Compiled(data, reportOk) =>
      var reply := ReplyReadSpec(data);
      if reply.Some? && reportOk && reply.value.contestId == contest && reply.value.status != 0
         && Reached(s, contest, reply.value.runId).Some?
      then Some((reply.value.runId, Result(reply.value.status, 0))) else None
    case Tested(c, r, status, score, reportOk, _) =>
      if reportOk && c == contest && Reached(s, contest, r).Some? then Some((r, Result(status, score))) else None
    case _ => None
  }

  function Noted(last: map<int, Result>, news: Option<(int, Result)>): map<int, Result> {
    if news.None? then last else last[news.value.0 := news.value.1]
  }

  /** The last verdict that a run brings for each run number, `last` being those from before. */
  function Told(s: Server, contest: int, es: seq<Event>, last: map<int, Result>): map<int, Result>
    decreases |es|
  {
    if es == [] then last
    else
      var t := Step(s, contest, es[0]);
      if t.None? then last else Told(t.value, contest, es[1..], Noted(last, Brings(s, contest, es[0])))
  }

  /** What is stored for submit k of a packet is what was told for its run number, and nothing when nothing was. */
  ghost predicate TellsAt(p: Packet, k: int, last: map<int, Result>) {
    && (HasVerdict(p.progress, k) <==> p.base + k in last)
    && (HasVerdict(p.progress, k) ==> p.progress[k].result == last[p.base + k])
  }

  ghost predicate TellsPacket(p: Packet, last: map<int, Result>) {
    p.taken ==> forall k | 0 <= k < |p.submits| :: TellsAt(p, k, last)
  }

  /** So it is for all packets, handled or finalized; and nothing was told of numbers that no packet had. */
  ghost predicate Tells(s: Server, last: map<int, Result>) {
    && (forall p | p in s.packets :: TellsPacket(p, last))
    && (forall r | r in s.finalized :: TellsPacket(r.packet, last))
    && (forall n | n in last :: exists b | b in s.blocks :: b.firstRunId <= n < b.firstRunId + b.submitCount)
  }

  // ---------------------------------------------------------------- one step

  lemma OtherNumber(p: Packet, last: map<int, Result>, n: int, result: Result)
    requires TellsPacket(p, last) && !HasRun(p, n)
    ensures TellsPacket(p, last[n := result])
  {
    var now := last[n := result];
    if p.taken {
      forall k | 0 <= k < |p.submits| ensures TellsAt(p, k, now) { assert TellsAt(p, k, last); }
    }
  }

  lemma SentTells(p: Packet, last: map<int, Result>, k: int)
    requires TellsPacket(p, last)
    ensures TellsPacket(Sent(p, k), last)
  {
    var q := Sent(p, k);
    forall i ensures HasVerdict(q.progress, i) <==> HasVerdict(p.progress, i) {}
    if q.taken {
      forall i | 0 <= i < |q.submits| ensures TellsAt(q, i, last) { assert TellsAt(p, i, last); }
    }
  }

  /** A verdict is stored as it is, for the submit that it is for. */
  lemma JudgedTells(p: Packet, last: map<int, Result>, n: int, result: Result)
    requires TellsPacket(p, last) && HasRun(p, n)
    ensures TellsPacket(Judged(p, n - p.base, result), last[n := result])
  {
    var k := n - p.base;
    var q, now := Judged(p, k, result), last[n := result];
    hide Waits;
    forall i | 0 <= i < |q.submits| ensures TellsAt(q, i, now) {
      assert TellsAt(p, i, last);
      assert HasVerdict(q.progress, i) <==> i == k || HasVerdict(p.progress, i);
    }
  }

  lemma NumberHasBlock(s: Server, contestId: int, n: int)
    requires Reached(s, contestId, n).Some?
    ensures exists b | b in s.blocks :: b.firstRunId <= n < b.firstRunId + b.submitCount
  {
    var i := FindBlock(s.blocks, contestId, n);
    assert Covers(s.blocks[i], contestId, n) && s.blocks[i] in s.blocks;
  }

  /** What a verdict for packet j does: no other packet, handled or finalized, has its run number. */
  lemma VerdictTells(s: Server, contest: int, last: map<int, Result>, n: int, result: Result, j: nat, q: Packet)
    requires Inv(s, contest) && Tells(s, last) && j < |s.packets| && Reached(s, contest, n) == Some(j)
    requires TellsPacket(q, last[n := result])
    ensures Tells(s.(packets := s.packets[j := q]), last[n := result])
  {
    hide Inv, Reached, HasRun, TellsPacket;
    var t := s.(packets := s.packets[j := q]);
    forall p | p in t.packets ensures TellsPacket(p, last[n := result]) {
      var i: nat :| i < |t.packets| && t.packets[i] == p;
      if i != j {
        ReachesExactly(s, contest, contest, n, i);
        assert p in s.packets;
        OtherNumber(p, last, n, result);
      }
    }
    ReachesFreed(s, contest, contest, n);
    forall r | r in t.finalized ensures TellsPacket(r.packet, last[n := result]) {
      var i: nat :| i < |s.finalized| && s.finalized[i] == r;
      OtherNumber(r.packet, last, n, result);
    }
    NumberHasBlock(s, contest, n);
  }

  /** What a reply that is no verdict does. */
  lemma SamePlaceTells(s: Server, last: map<int, Result>, j: nat, q: Packet)
    requires Tells(s, last) && j < |s.packets| && TellsPacket(q, last)
    ensures Tells(s.(packets := s.packets[j := q]), last)
  {
    hide TellsPacket;
    forall p | p in s.packets[j := q] ensures TellsPacket(p, last) {
      if p != q { assert p in s.packets; }
    }
  }

  lemma NoneDropped(s: Server, contest: int, c: int, r: int)
    requires Inv(s, contest) && c != contest
    ensures Reached(s, c, r).None?
  {
    if Reached(s, c, r).Some? { ReachedFrom(s, contest, c, r); }
  }

  lemma CompiledTells(s: Server, contest: int, last: map<int, Result>, e: Event)
    requires Inv(s, contest) && Tells(s, last) && e.Compiled? && Step(s, contest, e).Some?
    ensures Tells(Step(s, contest, e).value, Noted(last, Brings(s, contest, e)))
  {
    hide Inv, Tells, Reached, ReplyReadSpec, Judged, Sent, HasRun, CountsOk;
    var reply := ReplyReadSpec(e.data);
    if reply.Some? {
      var c, n, status := reply.value.contestId, reply.value.runId, reply.value.status;
      ReadReply(e.data);
      if c != contest { NoneDropped(s, contest, c, n); }
      if !Dropped(s, c, n, e.reportOk) {
        var j := Reached(s, c, n).value;
        ReachedPacket(s, contest, c, n, j);
        PacketTells(s, last, j);
        if status == 0 {
          SentTells(s.packets[j], last, n - s.packets[j].base);
          SamePlaceTells(s, last, j, Sent(s.packets[j], n - s.packets[j].base));
        } else {
          JudgedTells(s.packets[j], last, n, Result(status, 0));
          VerdictTells(s, contest, last, n, Result(status, 0), j,
                       Judged(s.packets[j], n - s.packets[j].base, Result(status, 0)));
        }
      }
    }
  }

  lemma PacketTells(s: Server, last: map<int, Result>, j: nat)
    requires Tells(s, last) && j < |s.packets|
    ensures TellsPacket(s.packets[j], last)
  {
    assert s.packets[j] in s.packets;
  }

  lemma TestedTells(s: Server, contest: int, last: map<int, Result>, e: Event)
    requires Inv(s, contest) && contest > 0 && Tells(s, last) && e.Tested? && Step(s, contest, e).Some?
    ensures Tells(Step(s, contest, e).value, Noted(last, Brings(s, contest, e)))
  {
    hide Inv, Tells, Reached, Judged, HasRun, CountsOk;
    var c, n := e.contestId, e.runId;
    if c != contest { NoneDropped(s, contest, c, n); }
    if Reached(s, c, n).Some? { ReachedFrom(s, contest, c, n); }
    if !Dropped(s, c, n, e.reportOk) {
      var j := Reached(s, c, n).value;
      ReachedPacket(s, contest, c, n, j);
      PacketTells(s, last, j);
      var result := Result(e.status, e.score);
      JudgedTells(s.packets[j], last, n, result);
      VerdictTells(s, contest, last, n, result, j, Judged(s.packets[j], n - s.packets[j].base, result));
    }
  }

  lemma CheckTells(s: Server, contest: int, last: map<int, Result>, generate: string -> int)
    requires Tells(s, last)
    ensures Tells(Step(s, contest, Check(generate)).value, last)
  {
    hide TellsPacket, Kept, Ended;
    KeptFrom(s.packets);
    EndedFrom(s.packets, generate);
  }

  lemma NotInBlock(bs: seq<Block<nat>>, contest: int, base: int, count: int, b: Block<nat>, k: int)
    requires CanAdd(bs, contest, base, count) && b in bs && b.contestId == contest && 0 <= k < count
    ensures !(b.firstRunId <= base + k < b.firstRunId + b.submitCount)
  {
    var i :| 0 <= i < |bs| && bs[i] == b;
    assert !Overlaps(bs[i], contest, base, count);
  }

  /** A new packet has run numbers of which nothing was told. */
  lemma NewTells(s: Server, contest: int, last: map<int, Result>, name: string, base: int, sbs: seq<Submit>)
    requires Inv(s, contest) && Tells(s, last) && CanAdd(s.blocks, contest, base, |sbs|)
    ensures TellsPacket(NewPacket(s.arrivals, name, base, sbs), last)
  {
    QueuedIs(sbs);
    hide TakeInAll, CountFate, QueuedSet, TellsPacket, HasVerdict;
    var p := NewPacket(s.arrivals, name, base, sbs);
    forall k | 0 <= k < |sbs| ensures TellsAt(p, k, last) {
      forall b | b in s.blocks ensures !(b.firstRunId <= base + k < b.firstRunId + b.submitCount) {
        BlockContest(s, contest, b);
        NotInBlock(s.blocks, contest, base, |sbs|, b, k);
      }
    }
    TellsEach(p, last);
  }

  lemma TellsEach(p: Packet, last: map<int, Result>)
    requires forall k | 0 <= k < |p.submits| :: TellsAt(p, k, last)
    ensures TellsPacket(p, last)
  {
  }

  lemma BlockContest(s: Server, contest: int, b: Block<nat>)
    requires Inv(s, contest) && b in s.blocks
    ensures b.contestId == contest
  {
    hide EachOnce, PacketsOk, Disjoint;
  }

  lemma ArriveTells(s: Server, contest: int, last: map<int, Result>, inp: Incoming)
    requires Inv(s, contest) && Tells(s, last) && Arrival(s, contest, inp).Some?
    ensures Tells(Arrival(s, contest, inp).value, last)
  {
    hide Inv, Arrival, Reads, CanAdd, NewPacket, BaseFor, TellsPacket;
    var count, base := |inp.submits|, BaseFor(s, |inp.submits|);
    if !Reads(s, inp) {
      NotRead(s, contest, inp);
    } else if !Numbers(inp) || !inp.bindOk {
      ArrivesFailed(s, contest, inp);
      FailedTells(s.arrivals, inp.name, 0, inp.submits, last);
      FailedTells(s.arrivals, inp.name, base, inp.submits, last);
    } else {
      ArrivesTaken(s, contest, inp);
      NewTells(s, contest, last, inp.name, base, inp.submits);
    }
  }

  lemma FailedTells(serial: nat, name: string, base: int, sbs: seq<Submit>, last: map<int, Result>)
    ensures TellsPacket(FailedPacket(serial, name, base, sbs), last)
  {
  }

  lemma StepTells(s: Server, contest: int, last: map<int, Result>, e: Event)
    requires Inv(s, contest) && contest > 0 && Tells(s, last) && Step(s, contest, e).Some?
    ensures Tells(Step(s, contest, e).value, Noted(last, Brings(s, contest, e)))
  {
    match e
    case Arrive(inp) =>
      hide Inv, Tells, Arrival;
      ArriveTells(s, contest, last, inp);
    case Compiled(_, _) => CompiledTells(s, contest, last, e);
    case Tested(_, _, _, _, _, _) => TestedTells(s, contest, last, e);
    case Check(generate) => CheckTells(s, contest, last, generate);
  }

  // ---------------------------------------------------------------- whole runs

  lemma {:induction false} RunTells(s: Server, contest: int, es: seq<Event>, last: map<int, Result>)
    requires Inv(s, contest) && contest > 0 && Tells(s, last) && Steps(s, contest, es).Some?
    ensures Tells(Steps(s, contest, es).value, Told(s, contest, es, last))
    decreases |es|
  {
    if es == [] {
    } else {
      hide Inv, Tells, Step, Brings, Noted;
      var t := Step(s, contest, es[0]).value;
      StepKeeps(s, contest, es[0]);
      StepTells(s, contest, last, es[0]);
      RunTells(t, contest, es[1..], Noted(last, Brings(s, contest, es[0])));
    }
  }

  /** Over every run that does not stop: the verdict stored for a submit, in a packet that is handled or finalized,
      is the last one that came for its run number, with that status and that score; and there is one exactly when
      one came. */
  lemma VerdictsAreLast(contest: int, es: seq<Event>)
    requires contest > 0 && Steps(START, contest, es).Some?
    ensures Tells(Steps(START, contest, es).value, Told(START, contest, es, map[]))
  {
    StartOk(contest);
    RunTells(START, contest, es, map[]);
  }
}
