/** ej-batch.c: packets of submits on their way from the incoming spool, through compiling and running,
    to the verdicts in the outgoing packet. */
module Batch {
  import opened CTypes
  import opened PacketBytes
  import opened CompileReply
  import opened SubmitBlocks
  import opened BatchServer
  import opened BatchLaws
  import opened BatchVerdicts

  /** struct t3_spool_packet_info, with what its packet holds and stores. */
  class PacketInfo {
    const pktName: string
    const submits: seq<Submit>
    ghost const serial: nat
    var pendingCount: int
    var errcode: int
    var completed: bool
    var submitCount: int
    var baseRunId: int
    var ignoredCount: int
    var wrongFormatCount: int
    var processedCount: nat
    var progress: Progress
    ghost var again: nat

    constructor (name: string, ghost number: nat, sbs: seq<Submit>)
      ensures pktName == name && serial == number && submits == sbs && Blank() && errcode == 0
    {
      pktName, serial, submits := name, number, sbs;
      pendingCount, errcode, completed, submitCount, baseRunId := 0, 0, false, 0, 0;
      ignoredCount, wrongFormatCount, processedCount := 0, 0, 0;
      progress, again := map[], 0;
    }

    /** The fields are zero-filled, apart from `errcode` and the fields of the packet itself. */
    ghost predicate Blank()
      reads this
    {
      && pendingCount == 0 && !completed && submitCount == 0 && baseRunId == 0
      && ignoredCount == 0 && wrongFormatCount == 0 && processedCount == 0 && progress == map[] && again == 0
    }

    ghost function View(): Packet
      reads this
    {
      Packet(serial, pktName, baseRunId, submits, errcode >= 0, progress, pendingCount, processedCount, again,
             completed)
    }

    /** The counters that no reply changes. */
    ghost predicate Valid()
      reads this
    {
      && errcode >= -1
      && (errcode >= 0 ==>
            && submitCount == |submits|
            && ignoredCount == CountFate(submits, Ignored)
            && wrongFormatCount == CountFate(submits, WrongFormat))
    }

    lemma ErrcodeIs()
      requires Valid()
      ensures errcode >= -1
    {
    }

    /** process_submit for the submit with the given index. */
    method ProcessSubmit(submitIndex: int, sb: Submit)
      modifies this
      ensures progress == TakeIn(old(progress), submitIndex, sb)
      ensures pendingCount == old(pendingCount) + if FateOf(sb) == Queued then 1 else 0
      ensures ignoredCount == old(ignoredCount) + if FateOf(sb) == Ignored then 1 else 0
      ensures wrongFormatCount == old(wrongFormatCount) + if FateOf(sb) == WrongFormat then 1 else 0
      ensures var known := !sb.Missing? && !sb.skipFlag && sb.probOk && sb.langOk;
              var readable := known && sb.fileSize > 0 && sb.fileOk && (sb.gzipped ==> sb.gunzipOk) && sb.textOk;
              && progress == (if readable then old(progress)[submitIndex := InCompile] else old(progress))
              && pendingCount == old(pendingCount) + (if readable then 1 else 0)
              && ignoredCount == old(ignoredCount) + (if !sb.Missing? && sb.skipFlag then 1 else 0)
              && wrongFormatCount == old(wrongFormatCount) + if known && !readable then 1 else 0
      ensures unchanged(this`submitCount, this`baseRunId, this`errcode, this`completed, this`processedCount, this`again)
    {
      if sb.Missing? { return; }
      if sb.skipFlag {
        ignoredCount := ignoredCount + 1;
        return;
      }
      if !sb.probOk { return; }
      if !sb.langOk { return; }
      if sb.fileSize <= 0 {
        wrongFormatCount := wrongFormatCount + 1;
        return;
      }
      if !sb.fileOk {
        wrongFormatCount := wrongFormatCount + 1;
        return;
      }
      if sb.gzipped {
        if !sb.gunzipOk {
          wrongFormatCount := wrongFormatCount + 1;
          return;
        }
      }
      if !sb.textOk {
        wrongFormatCount := wrongFormatCount + 1;
        return;
      }
      progress := progress[submitIndex := InCompile];
      pendingCount := pendingCount + 1;
    }

    /** What both handlers do with a verdict. */
    method SetSubmit(runIndex: int, result: Result)
      modifies this
      ensures View() == Judged(old(View()), runIndex, result)
      ensures progress == old(progress)[runIndex := Done(result)]
      ensures pendingCount == old(pendingCount) - 1 && processedCount == old(processedCount) + 1
      ensures unchanged(this`submitCount, this`errcode, this`ignoredCount, this`wrongFormatCount)
    {
      hide Waits;
      again := again + if runIndex in Waits(View()) then 0 else 1;
      progress := progress[runIndex := Done(result)];
      processedCount := processedCount + 1;
      pendingCount := pendingCount - 1;
      if pendingCount == 0 { completed := true; }
    }

    /** process_compile_packet for any reply, awaited or not; `alive` tells that no assertion failed. A verdict for
        a submit that does not wait for it counts down like any other, and may complete the packet. */
    method ProcessCompilePacket(runId: int, status: int) returns (alive: bool)
      requires submitCount == |submits|
      modifies this
      ensures alive <==> OnCompiled(old(View()), runId, status).Some?
      ensures alive ==> View() == OnCompiled(old(View()), runId, status).value
      ensures var i := runId - baseRunId;
              && (alive && status != RUN_OK ==>
                    && progress == old(progress)[i := Done(Result(status, 0))]
                    && pendingCount == old(pendingCount) - 1 && processedCount == old(processedCount) + 1)
              && (alive && status == RUN_OK ==>
                    && unchanged(`pendingCount, `processedCount, `completed)
                    && progress == if i in old(progress) && old(progress)[i].Done? then old(progress)
                                   else old(progress)[i := InRun])
      ensures alive ==> completed == (old(completed) || (status != RUN_OK && pendingCount == 0))
      ensures alive && status != RUN_OK && errcode >= 0 && old(CountsOk(View()) && again == 0) ==>
                (pendingCount == |Waits(View())| <==> runId - baseRunId in old(Waits(View())))
      ensures !alive ==> unchanged(this)
      ensures unchanged(this`submitCount, this`errcode, this`ignoredCount, this`wrongFormatCount)
    {
      hide Waits, CountsOk, Judged;
      var runIndex := runId - baseRunId;
      if !(runIndex >= 0 && runIndex < submitCount) { return false; }
      if status != RUN_OK && status != RUN_COMPILE_ERR && status != RUN_CHECK_FAILED && status != RUN_STYLE_ERR {
        return false;
      }
      if status != RUN_OK {
        VerdictCounts(View(), runIndex, Result(status, 0));
        SetSubmit(runIndex, Result(status, 0));
        return true;
      }
      var t3sb := submits[runIndex];
      if t3sb.Missing? { return false; }
      if !t3sb.probOk { return false; }
      if !t3sb.langOk { return false; }
      if runIndex !in progress || !progress[runIndex].Done? { progress := progress[runIndex := InRun]; }
      return true;
    }

    /** process_run_packet for any reply, awaited or not. */
    method ProcessRunPacket(runId: int, status: int, score: int, xmlOk: bool) returns (alive: bool)
      requires submitCount == |submits|
      modifies this
      ensures alive <==> OnTested(old(View()), runId, status, score, xmlOk).Some?
      ensures alive ==> View() == OnTested(old(View()), runId, status, score, xmlOk).value
      ensures alive ==>
                && progress == old(progress)[runId - baseRunId := Done(Result(status, score))]
                && pendingCount == old(pendingCount) - 1 && processedCount == old(processedCount) + 1
      ensures alive ==> completed == (old(completed) || pendingCount == 0)
      ensures alive && errcode >= 0 && old(CountsOk(View()) && again == 0) ==>
                (pendingCount == |Waits(View())| <==> runId - baseRunId in old(Waits(View())))
      ensures !alive ==> unchanged(this)
      ensures unchanged(this`submitCount, this`errcode, this`ignoredCount, this`wrongFormatCount)
    {
      hide Waits, CountsOk, Judged;
      var runIndex := runId - baseRunId;
      if !(runIndex >= 0 && runIndex < submitCount) { return false; }
      if submits[runIndex].Missing? { return false; }
      if !xmlOk { return false; }
      VerdictCounts(View(), runIndex, Result(status, score));
      SetSubmit(runIndex, Result(status, score));
      return true;
    }
  }

  /** What a verdict does to the counters: they stay right exactly when the submit waited for it. */
  lemma VerdictCounts(p: Packet, k: int, result: Result)
    ensures var q := Judged(p, k, result);
            && q.taken == p.taken && q.base == p.base
            && q.completed == (p.completed || q.pending == 0)
            && (CountsOk(p) && p.taken && p.again == 0 ==> (q.pending == |Waits(q)| <==> k in Waits(p)))
  {
    if CountsOk(p) && p.taken {
      JudgedKeeps(p, k, result);
      hide Waits, QueuedSet;
    }
  }

  // ---------------------------------------------------------------- the spool

  ghost function BlockView(b: Block<PacketInfo>): Block<nat> {
    Block(b.contestId, b.firstRunId, b.submitCount, b.data.serial)
  }

  /** Two lists of blocks with the same numbers. */
  ghost predicate SameBlocks(bs: seq<Block<PacketInfo>>, vs: seq<Block<nat>>) {
    |bs| == |vs| && forall k | 0 <= k < |bs| :: BlockView(bs[k]) == vs[k]
  }

  lemma SameCanAdd(bs: seq<Block<PacketInfo>>, vs: seq<Block<nat>>, contestId: int, first: int, count: int)
    requires SameBlocks(bs, vs)
    ensures CanAdd(vs, contestId, first, count) == CanAdd(bs, contestId, first, count)
  {
    forall k | 0 <= k < |bs|
      ensures Overlaps(vs[k], contestId, first, count) == Overlaps(bs[k], contestId, first, count)
    {
      assert BlockView(bs[k]) == vs[k];
    }
  }

  lemma SameFind(bs: seq<Block<PacketInfo>>, vs: seq<Block<nat>>, contestId: int, runId: int)
    requires SameBlocks(bs, vs)
    ensures FindBlock(vs, contestId, runId) == FindBlock(bs, contestId, runId)
  {
    var i := FindBlock(bs, contestId, runId);
    forall k | 0 <= k < |bs| ensures Covers(vs[k], contestId, runId) == Covers(bs[k], contestId, runId) {
      assert BlockView(bs[k]) == vs[k];
    }
    FindIs(vs, i, contestId, runId);
  }

  lemma SerialsBelow(s: Server, contest: int)
    requires Inv(s, contest)
    ensures forall i | 0 <= i < |s.packets| :: s.packets[i].serial < s.arrivals
  {
    AtMostOnce(s);
  }

  class Spool {
    /** The contest of the batch server itself, under which it asks the other servers. */
    const contest: int
    const sbState: SubmitBlockState<PacketInfo>
    /** The list of packets being handled, from `first` to `last`. */
    var packets: seq<PacketInfo>
    var nextRunId: int
    /** The state as a value. */
    ghost var state: Server

    constructor (contestId: int)
      requires contestId > 0
      ensures contest == contestId && Valid() && state == START && fresh(sbState) && packets == []
    {
      contest := contestId;
      sbState := new SubmitBlockState();
      packets, nextRunId, state := [], 0, START;
      new;
      StartOk(contestId);
    }

    /** The state is one that the laws speak of, it is what the objects say, and the counters are right. */
    ghost predicate Valid()
      reads this, sbState, packets
    {
      && contest > 0 && Inv(state, contest) && nextRunId == state.next
      && |packets| == |state.packets|
      && (forall i | 0 <= i < |packets| :: packets[i].Valid() && packets[i].View() == state.packets[i])
      && SameBlocks(sbState.blocks, state.blocks)
      && (forall i, k | 0 <= i < |packets| && 0 <= k < |sbState.blocks| &&
            packets[i].serial == sbState.blocks[k].data.serial :: packets[i] == sbState.blocks[k].data)
      && (forall k | 0 <= k < |sbState.blocks| :: sbState.blocks[k].data.serial < state.arrivals)
    }

    /** The packet with the given name. */
    method Find(name: string) returns (p: PacketInfo?)
      requires Valid()
      ensures p == null <==> !Handled(state, name)
      ensures p != null ==> p in packets && p.pktName == name
    {
      for i := 0 to |packets|
        invariant forall k | 0 <= k < i :: packets[k].pktName != name
      {
        if packets[i].pktName == name {
          assert state.packets[i] == packets[i].View();
          return packets[i];
        }
      }
      forall k | 0 <= k < |packets| ensures state.packets[k].name != name {
        assert state.packets[k] == packets[k].View();
      }
      return null;
    }

    /** process_packet; `alive` tells that submit_block_add did not abort. */
    method ProcessPacket(pi: PacketInfo, inp: Incoming) returns (alive: bool, retval: int)
      requires pi.Blank() && pi.errcode == 0 && pi.submits == inp.submits
      modifies pi, this`nextRunId, sbState
      ensures !pi.completed && pi.processedCount == 0 && pi.again == 0 && pi.errcode == 0
      ensures retval == if inp.examKnown && inp.contestOk && inp.bindOk then 0 else -1
      ensures var count := |inp.submits|;
              var base := if old(nextRunId) + count >= 1_000_000 then 0 else old(nextRunId);
              && (alive <==> retval == 0 ==> CanAdd(old(sbState.blocks), contest, base, count))
              && (if inp.examKnown && inp.contestOk
                  then nextRunId == base + count + 1 && pi.baseRunId == base && pi.submitCount == count
                  else nextRunId == old(nextRunId) && pi.baseRunId == 0)
              && sbState.blocks == (if alive && retval == 0 then old(sbState.blocks) + [Block(contest, base, count, pi)]
                                    else old(sbState.blocks))
      ensures if alive && retval == 0
              then && pi.progress == TakeInAll(map[], 0, inp.submits)
                   && pi.pendingCount == CountFate(inp.submits, Queued)
                   && pi.ignoredCount == CountFate(inp.submits, Ignored)
                   && pi.wrongFormatCount == CountFate(inp.submits, WrongFormat)
              else pi.progress == map[] && pi.pendingCount == 0
    {
      hide CanAdd, TakeInAll, CountFate;
      alive, retval := true, -1;
      if !inp.examKnown { return; }
      if !inp.contestOk { return; }
      pi.submitCount := |inp.submits|;
      if nextRunId + pi.submitCount >= 1000000 { nextRunId := 0; }
      pi.baseRunId := nextRunId;
      nextRunId := nextRunId + pi.submitCount + 1;
      if !inp.bindOk { return; }
      alive := sbState.Add(contest, pi.baseRunId, pi.submitCount, pi);
      retval := 0;
      if !alive { return; }
      ProcessSubmits(pi, inp.submits);
    }

    /** The loop over the submits of a packet. */
    method ProcessSubmits(pi: PacketInfo, sbs: seq<Submit>)
      requires pi.progress == map[] && pi.pendingCount == 0 && pi.ignoredCount == 0 && pi.wrongFormatCount == 0
      modifies pi
      ensures pi.progress == TakeInAll(map[], 0, sbs) && pi.pendingCount == CountFate(sbs, Queued)
      ensures pi.ignoredCount == CountFate(sbs, Ignored) && pi.wrongFormatCount == CountFate(sbs, WrongFormat)
      ensures unchanged(pi`submitCount, pi`baseRunId, pi`errcode, pi`completed, pi`processedCount, pi`again)
    {
      hide FateOf;
      assert sbs[0..] == sbs;
      for i := 0 to |sbs|
        invariant unchanged(pi`submitCount, pi`baseRunId, pi`errcode, pi`completed, pi`processedCount, pi`again)
        invariant TakeInAll(pi.progress, i, sbs[i..]) == TakeInAll(map[], 0, sbs)
        invariant pi.pendingCount + CountFate(sbs[i..], Queued) == CountFate(sbs, Queued)
        invariant pi.ignoredCount + CountFate(sbs[i..], Ignored) == CountFate(sbs, Ignored)
        invariant pi.wrongFormatCount + CountFate(sbs[i..], WrongFormat) == CountFate(sbs, WrongFormat)
      {
        assert sbs[i..][1..] == sbs[i + 1..];
        pi.ProcessSubmit(i, sbs[i]);
      }
    }

    /** The record of an incoming packet, filled in as far as the packet can be read: what Arrival says. */
    method TakePacket(inp: Incoming) returns (alive: bool, newInfo: PacketInfo)
      requires Valid() && Reads(state, inp)
      modifies this`nextRunId, sbState
      ensures fresh(newInfo) && newInfo.serial == state.arrivals
      ensures alive <==> Arrival(state, contest, inp).Some?
      ensures alive ==>
                var t := Arrival(state, contest, inp).value;
                && newInfo.Valid() && t.packets == [newInfo.View()] + state.packets
                && (newInfo.errcode >= 0 <==> inp.parseOk && inp.examKnown && inp.contestOk && inp.bindOk)
                && nextRunId == t.next && SameBlocks(sbState.blocks, t.blocks)
      ensures forall k | 0 <= k < |sbState.blocks| ::
                sbState.blocks[k].data == newInfo || sbState.blocks[k] in old(sbState.blocks)
    {
      hide TakeInAll, QueuedSet, CanAdd, Inv, CountFate;
      ghost var blocks := sbState.blocks;
      newInfo := new PacketInfo(inp.name, state.arrivals, inp.submits);
      var r := if inp.parseOk then 0 else -1;
      alive := true;
      if r >= 0 { alive, r := ProcessPacket(newInfo, inp); }
      newInfo.errcode := r;
      if r < 0 { newInfo.completed := true; }
      SameCanAdd(blocks, state.blocks, contest, BaseFor(state, |inp.submits|), |inp.submits|);
    }

    /** t3_spool_handler: takes a packet in unless it is being handled already. */
    method SpoolHandler(inp: Incoming) returns (alive: bool)
      requires Valid()
      modifies this, sbState
      ensures alive <==> Step(old(state), contest, Arrive(inp)).Some?
      ensures alive ==> Valid() && state == Step(old(state), contest, Arrive(inp)).value
      ensures forall p | p in packets :: p in old(packets) || fresh(p)
    {
      hide Inv, PacketInfo.Valid, Handled, CanAdd, TakeInAll, CountFate, SameBlocks;
      var curInfo := Find(inp.name);
      if curInfo != null { return true; }
      if !inp.classKnown { return true; }
      SerialsBelow(state, contest);
      var newInfo;
      alive, newInfo := TakePacket(inp);
      if !alive { return; }
      ArrivalKeeps(state, contest, inp);
      LinkFirst(newInfo, Arrival(state, contest, inp).value);
    }

    /** LINK_FIRST: the new packet in front of the others. */
    method LinkFirst(newInfo: PacketInfo, ghost t: Server)
      requires contest > 0 && Inv(t, contest) && nextRunId == t.next && SameBlocks(sbState.blocks, t.blocks)
      requires newInfo.Valid() && t.packets == [newInfo.View()] + state.packets && |packets| == |state.packets|
      requires forall i | 0 <= i < |packets| :: packets[i].Valid() && packets[i].View() == state.packets[i]
      requires forall i, k | 0 <= i < |packets| && 0 <= k < |sbState.blocks| &&
                 packets[i].serial == sbState.blocks[k].data.serial :: packets[i] == sbState.blocks[k].data
      requires forall k | 0 <= k < |sbState.blocks| ::
                 sbState.blocks[k].data == newInfo || sbState.blocks[k].data.serial != newInfo.serial
      requires forall k | 0 <= k < |sbState.blocks| :: sbState.blocks[k].data.serial < t.arrivals
      modifies this`packets, this`state
      ensures Valid() && state == t && packets == [newInfo] + old(packets)
    {
      hide Inv, PacketInfo.Valid, SameBlocks;
      packets, state := [newInfo] + packets, t;
    }

    lemma Distinct()
      requires Valid()
      ensures forall i, j | 0 <= i < j < |packets| :: packets[i] != packets[j]
    {
      AtMostOnce(state);
      forall i, j | 0 <= i < j < |packets| ensures packets[i] != packets[j] {
        assert packets[i].View() == state.packets[i] && packets[j].View() == state.packets[j];
        assert state.packets[i].serial != state.packets[j].serial;
      }
    }

    /** The block that a run number finds is that of the packet it reaches, and that packet is in the list unless it
        was freed. */
    lemma LeadTo(contestId: int, runId: int)
      requires Valid()
      ensures var i := FindBlock(sbState.blocks, contestId, runId);
              match Reached(state, contestId, runId)
              case None => i == |sbState.blocks|
              case Some(j) => i < |sbState.blocks| &&
                              if j == |state.packets| then sbState.blocks[i].data !in packets
                              else sbState.blocks[i].data == packets[j]
    {
      SameFind(sbState.blocks, state.blocks, contestId, runId);
      hide Inv, FindBlock, PacketInfo.Valid;
      var i := FindBlock(sbState.blocks, contestId, runId);
      if i < |sbState.blocks| {
        assert BlockView(sbState.blocks[i]) == state.blocks[i];
        forall k | 0 <= k < |packets| ensures packets[k].serial == state.packets[k].serial {
          assert packets[k].View() == state.packets[k];
        }
      }
    }

    lemma SameLength()
      requires Valid()
      ensures |packets| == |state.packets|
    {
      hide Inv;
    }

    /** The block of a run number, and the packet whose handler is called. */
    method FindPacket(contestId: int, runId: int) returns (p: Option<PacketInfo>)
      requires Valid()
      ensures match Reached(state, contestId, runId)
              case None => p == None
              case Some(j) => p.Some? && (p.value in packets <==> j < |state.packets|) &&
                              (j < |state.packets| ==> j < |packets| && p.value == packets[j])
    {
      SameLength();
      hide Valid, FindBlock, Reached;
      LeadTo(contestId, runId);
      var sb := sbState.Find(contestId, runId);
      if sb.None? { return None; }
      return Some(sb.value.data);
    }

    /** What a packet that a reply reaches is like. */
    lemma Readied(contestId: int, runId: int, j: nat)
      requires Valid() && j < |state.packets| && Reached(state, contestId, runId) == Some(j)
      ensures j < |packets| && packets[j].View() == state.packets[j] && packets[j].errcode >= 0
      ensures packets[j].submitCount == |packets[j].submits|
      ensures forall i | 0 <= i < |packets| && i != j :: packets[i] != packets[j]
    {
      hide Inv, Reached, SameBlocks, CountFate;
      Distinct();
      ReachedPacket(state, contest, contestId, runId, j);
      assert packets[j].Valid();
    }

    /** The compile handler of a packet. */
    method HandleCompiled(p: PacketInfo, ghost j: nat, runId: int, status: int) returns (alive: bool)
      requires Valid() && j < |packets| && p == packets[j] && p.View() == state.packets[j]
      requires p.submitCount == |p.submits| && forall i | 0 <= i < |packets| && i != j :: packets[i] != p
      requires var t := Put(state, j, OnCompiled(state.packets[j], runId, status)); t.Some? ==> Inv(t.value, contest)
      modifies this`state, p
      ensures var t := Put(old(state), j, OnCompiled(old(state).packets[j], runId, status));
              (alive <==> t.Some?) && (alive ==> Valid() && state == t.value)
    {
      hide Inv, SameBlocks, OnCompiled, CountFate, CountsOk, Waits;
      alive := p.ProcessCompilePacket(runId, status);
      if alive { state := state.(packets := state.packets[j := p.View()]); }
    }

    /** The run handler of a packet. */
    method HandleTested(p: PacketInfo, ghost j: nat, runId: int, status: int, score: int, xmlOk: bool)
      returns (alive: bool)
      requires Valid() && j < |packets| && p == packets[j] && p.View() == state.packets[j]
      requires p.submitCount == |p.submits| && forall i | 0 <= i < |packets| && i != j :: packets[i] != p
      requires var t := Put(state, j, OnTested(state.packets[j], runId, status, score, xmlOk));
               t.Some? ==> Inv(t.value, contest)
      modifies this`state, p
      ensures var t := Put(old(state), j, OnTested(old(state).packets[j], runId, status, score, xmlOk));
              (alive <==> t.Some?) && (alive ==> Valid() && state == t.value)
    {
      hide Inv, SameBlocks, OnTested, CountFate, CountsOk, Waits;
      alive := p.ProcessRunPacket(runId, status, score, xmlOk);
      if alive { state := state.(packets := state.packets[j := p.View()]); }
    }

    /** compile_dir_handler for the bytes of any packet. A packet that is not in the list has been freed; what C does
        to it is not defined, and counts as a stop. */
    method CompileDirHandler(data: seq<Byte>, reportOk: bool) returns (alive: bool)
      requires Valid()
      modifies this`state, packets
      ensures alive <==> Step(old(state), contest, Compiled(data, reportOk)).Some?
      ensures alive ==> Valid() && state == Step(old(state), contest, Compiled(data, reportOk)).value
    {
      hide Inv, Valid, Reached, OnCompiled, ReplyReadSpec, CountsOk;
      var pkt := ReplyRead(data);
      if pkt.None? { return true; }
      var reply := pkt.value;
      if reply.contestId <= 0 { return true; }
      if reply.runId < 0 { return true; }
      if !reportOk { return true; }
      KeepsInv(Compiled(data, reportOk));
      var p := FindPacket(reply.contestId, reply.runId);
      if p.None? { return true; }
      if p.value !in packets { return false; }
      ghost var j := Reached(state, reply.contestId, reply.runId).value;
      Readied(reply.contestId, reply.runId, j);
      alive := HandleCompiled(p.value, j, reply.runId, reply.status);
    }

    lemma KeepsInv(e: Event)
      requires Valid()
      ensures Step(state, contest, e).Some? ==> Inv(Step(state, contest, e).value, contest)
    {
      hide Inv, Step;
      if Step(state, contest, e).Some? { StepKeeps(state, contest, e); }
    }

    /** run_dir_handler for any packet that can be read. */
    method RunDirHandler(contestId: int, runId: int, status: int, score: int, reportOk: bool, xmlOk: bool)
      returns (alive: bool)
      requires Valid()
      modifies this`state, packets
      ensures var t := Step(old(state), contest, Tested(contestId, runId, status, score, reportOk, xmlOk));
              (alive <==> t.Some?) && (alive ==> Valid() && state == t.value)
    {
      hide Inv, Valid, Reached, OnTested, CountsOk;
      if contestId <= 0 { return true; }
      if runId < 0 { return true; }
      if !reportOk { return true; }
      KeepsInv(Tested(contestId, runId, status, score, reportOk, xmlOk));
      var p := FindPacket(contestId, runId);
      if p.None? { return true; }
      if p.value !in packets { return false; }
      ghost var j := Reached(state, contestId, runId).value;
      Readied(contestId, runId, j);
      alive := HandleTested(p.value, j, runId, status, score, xmlOk);
    }

    /** t3_spool_finalize_packet, for the packet at position i; `generate` gives the outcome of writing it. */
    method FinalizePacket(pi: PacketInfo, i: nat, generate: string -> int) returns (ghost r: Record)
      requires i < |packets| && packets[i] == pi && pi.errcode >= -1
      modifies this`packets, pi`errcode
      ensures packets == old(packets)[..i] + old(packets)[i + 1..]
      ensures pi.errcode == if old(pi.errcode) >= 0 then generate(pi.pktName) else old(pi.errcode)
      ensures r == RecordOf(old(pi.View()), generate) && r.errcode == pi.errcode
    {
      ghost var v := pi.View();
      if pi.errcode >= 0 { pi.errcode := generate(pi.pktName); }
      r := Record(v, pi.errcode);
      packets := packets[..i] + packets[i + 1..];
    }

    /** The checker is at position i and has looked at n of the packets that were there before. */
    ghost predicate Scanned(before: seq<PacketInfo>, views: seq<Packet>, n: nat, i: nat)
      reads this, packets, before
    {
      && n <= |before| == |views| && i <= |packets| && packets[i..] == before[n..]
      && |Kept(views[..n])| == i
      && (forall k | 0 <= k < i ::
            packets[k] in before[..n] && packets[k].Valid() && packets[k].View() == Kept(views[..n])[k])
      && (forall k | n <= k < |before| :: before[k].Valid() && before[k].View() == views[k])
    }

    lemma ScanStart(views: seq<Packet>, generate: string -> int)
      requires |packets| == |views|
      requires forall k | 0 <= k < |packets| :: packets[k].Valid() && packets[k].View() == views[k]
      ensures Scanned(packets, views, 0, 0) && Ended(views[..0], generate) == []
    {
      hide PacketInfo.Valid;
      assert views[..0] == [] && Kept([]) == [] && Ended([], generate) == [];
    }

    lemma ScanNext(before: seq<PacketInfo>, views: seq<Packet>, n: nat, i: nat, generate: string -> int)
      requires Scanned(before, views, n, i) && i < |packets|
      ensures n < |before| && packets[i] == before[n] && packets[i].Valid() && packets[i].View() == views[n]
      ensures Kept(views[..n + 1]) == if packets[i].completed then Kept(views[..n]) else Kept(views[..n]) + [views[n]]
      ensures Ended(views[..n + 1], generate) ==
              Ended(views[..n], generate) + if packets[i].completed then [RecordOf(views[n], generate)] else []
    {
      hide Kept, Ended, RecordOf, PacketInfo.Valid;
      assert packets[i] == packets[i..][0] == before[n..][0] == before[n];
      assert views[..n + 1] == views[..n] + [views[n]];
      CheckLast(views[..n], views[n], generate);
    }

    lemma ScanKeep(before: seq<PacketInfo>, views: seq<Packet>, n: nat, i: nat)
      requires Scanned(before, views, n, i) && i < |packets| && n < |before| && packets[i] == before[n]
      requires Kept(views[..n + 1]) == Kept(views[..n]) + [views[n]]
      ensures Scanned(before, views, n + 1, i + 1)
    {
      hide Kept, PacketInfo.Valid;
      assert packets[i + 1..] == packets[i..][1..] && before[n + 1..] == before[n..][1..];
      assert before[..n + 1] == before[..n] + [before[n]];
    }

    /** The checker finalizes the packet it has come to. */
    method Finalize(ghost before: seq<PacketInfo>, ghost views: seq<Packet>, ghost n: nat, i: nat,
                    generate: string -> int, pi: PacketInfo) returns (ghost r: Record)
      requires Scanned(before, views, n, i) && i < |packets| && n < |before| && packets[i] == before[n] == pi
      requires pi.Valid() && pi.View() == views[n]
      requires forall j, k | 0 <= j < k < |before| :: before[j] != before[k]
      requires Kept(views[..n + 1]) == Kept(views[..n])
      modifies this`packets, pi`errcode
      ensures Scanned(before, views, n + 1, i) && |packets| == |old(packets)| - 1
      ensures (forall p | p in packets :: p in old(packets)) && r == RecordOf(views[n], generate)
    {
      hide Kept, PacketInfo.Valid, RecordOf;
      pi.ErrcodeIs();
      assert forall k | 0 <= k < i :: packets[k] != before[n];
      assert before[n + 1..] == packets[i..][1..] == packets[i + 1..];
      assert before[..n + 1] == before[..n] + [before[n]];
      r := FinalizePacket(pi, i, generate);
    }

    /** One turn of the loop of t3_spool_checker. */
    method CheckOne(ghost before: seq<PacketInfo>, ghost views: seq<Packet>, ghost n: nat, i: nat,
                    generate: string -> int, pi: PacketInfo) returns (next: nat, ghost rs: seq<Record>)
      requires Scanned(before, views, n, i) && i < |packets| && packets[i] == pi
      requires forall j, k | 0 <= j < k < |before| :: before[j] != before[k]
      modifies this`packets, pi`errcode
      ensures n < |views| && Scanned(before, views, n + 1, next) && |packets| - next < |old(packets)| - i
      ensures Ended(views[..n + 1], generate) == Ended(views[..n], generate) + rs
      ensures forall p | p in packets :: p in old(packets)
    {
      hide PacketInfo.Valid, Kept, Ended, RecordOf;
      ScanNext(before, views, n, i, generate);
      if pi.completed {
        ghost var r := Finalize(before, views, n, i, generate, pi);
        next, rs := i, [r];
      } else {
        ScanKeep(before, views, n, i);
        next, rs := i + 1, [];
      }
    }

    /** The loop of t3_spool_checker. */
    method ScanAll(ghost views: seq<Packet>, generate: string -> int) returns (ghost records: seq<Record>)
      requires |packets| == |views|
      requires forall k | 0 <= k < |packets| :: packets[k].Valid() && packets[k].View() == views[k]
      requires forall j, k | 0 <= j < k < |packets| :: packets[j] != packets[k]
      modifies this`packets, packets
      ensures |packets| == |Kept(views)| && records == Ended(views, generate)
      ensures forall k | 0 <= k < |packets| ::
                packets[k] in old(packets) && packets[k].Valid() && packets[k].View() == Kept(views)[k]
    {
      hide PacketInfo.Valid, Kept, Ended, Scanned;
      ghost var before, n: nat := packets, 0;
      ScanStart(views, generate);
      records := [];
      var i := 0;
      while i < |packets|
        invariant 0 <= i && n <= |views| && Scanned(before, views, n, i)
        invariant (forall p | p in packets :: p in before) && records == Ended(views[..n], generate)
        decreases |packets| - i
      {
        ghost var rs;
        assert packets[i] in packets;
        i, rs := CheckOne(before, views, n, i, generate, packets[i]);
        records, n := records + rs, n + 1;
      }
      ScanDone(before, views, n, i);
    }

    /** The blocks of the packets that are left are theirs still. */
    lemma OwnBlocks(before: seq<PacketInfo>, blocks: seq<Block<PacketInfo>>)
      requires forall i | 0 <= i < |packets| :: packets[i] in before
      requires forall i, k | 0 <= i < |before| && 0 <= k < |blocks| && before[i].serial == blocks[k].data.serial ::
                 before[i] == blocks[k].data
      ensures forall i, k | 0 <= i < |packets| && 0 <= k < |blocks| && packets[i].serial == blocks[k].data.serial ::
                packets[i] == blocks[k].data
      ensures forall p | p in packets :: p in before
    {
      forall i, k | 0 <= i < |packets| && 0 <= k < |blocks| && packets[i].serial == blocks[k].data.serial
        ensures packets[i] == blocks[k].data
      {
        var m :| 0 <= m < |before| && before[m] == packets[i];
      }
    }

    /** t3_spool_checker: finalizes exactly the completed packets, in order, and leaves the others alone. */
    method SpoolChecker(generate: string -> int)
      requires Valid()
      modifies this`packets, this`state, packets
      ensures Valid() && state == Step(old(state), contest, Check(generate)).value
      ensures forall p | p in packets :: p in old(packets)
    {
      hide Inv, PacketInfo.Valid, SameBlocks, Kept, Ended;
      Distinct();
      CheckKeeps(state, contest, generate);
      ghost var before := packets;
      ghost var records := ScanAll(state.packets, generate);
      OwnBlocks(before, sbState.blocks);
      state := state.(packets := Kept(state.packets), finalized := state.finalized + records);
    }

    lemma ScanDone(before: seq<PacketInfo>, views: seq<Packet>, n: nat, i: nat)
      requires Scanned(before, views, n, i) && i >= |packets|
      ensures |packets| == |Kept(views)| && views[..n] == views
      ensures forall k | 0 <= k < |packets| ::
                packets[k] in before && packets[k].Valid() && packets[k].View() == Kept(views)[k]
    {
      hide Kept, PacketInfo.Valid;
      assert packets[i..] == [] && views[..n] == views && before[..n] == before;
    }
  }

  // ---------------------------------------------------------------- whole runs

  /** One event, whatever it is. */
  method Perform(spool: Spool, e: Event) returns (alive: bool)
    requires spool.Valid()
    modifies spool, spool.sbState, spool.packets
    ensures alive <==> Step(old(spool.state), spool.contest, e).Some?
    ensures alive ==> spool.Valid() && spool.state == Step(old(spool.state), spool.contest, e).value
    ensures forall p | p in spool.packets :: p in old(spool.packets) || fresh(p)
  {
    hide Step, Spool.Valid;
    match e
    case Arrive(inp) => alive := spool.SpoolHandler(inp);
    case Compiled(data, reportOk) => alive := spool.CompileDirHandler(data, reportOk);
    case Tested(c, r, status, score, reportOk, xmlOk) =>
      alive := spool.RunDirHandler(c, r, status, score, reportOk, xmlOk);
    case Check(generate) =>
      NoStop(spool.state, spool.contest, generate);
      spool.SpoolChecker(generate);
      alive := true;
  }

  lemma NoStop(s: Server, contest: int, generate: string -> int)
    ensures Step(s, contest, Check(generate)).Some?
  {
  }

  /** What the counters of a packet say in the end, whatever replies came. */
  ghost predicate Counted(p: PacketInfo)
    reads p
  {
    p.errcode >= 0 ==>
      && p.pendingCount + p.processedCount == CountFate(p.submits, Queued)
      && p.pendingCount == |Waits(p.View())| - p.again
      && (p.completed <==> CountFate(p.submits, Queued) > 0 && p.pendingCount <= 0)
      && p.ignoredCount == CountFate(p.submits, Ignored)
      && p.wrongFormatCount == CountFate(p.submits, WrongFormat)
  }

  /** Any run of events, whatever replies come, does to the objects what it does to the state as a value, and stops
      when that stops. In the end the counters of every packet are as above, no packet was finalized twice, and none
      that was finalized is still handled. No verdict was misplaced exactly when no reply came twice; then each
      finalized packet has verdicts for exactly its queued submits. Run on a new spool, every verdict that is stored
      is the last one that came for its run number. */
  method Run(spool: Spool, events: seq<Event>) returns (alive: bool)
    requires spool.Valid()
    modifies spool, spool.sbState, spool.packets
    ensures alive <==> Steps(old(spool.state), spool.contest, events).Some?
    ensures alive ==> spool.Valid() && spool.state == Steps(old(spool.state), spool.contest, events).value
    ensures alive ==> forall p | p in spool.packets :: Counted(p)
    ensures alive ==> forall i, j | 0 <= i < j < |spool.state.finalized| ::
              spool.state.finalized[i].packet.serial != spool.state.finalized[j].packet.serial
    ensures alive ==> forall p, r | p in spool.packets && r in spool.state.finalized :: p.serial != r.packet.serial
    ensures alive ==> forall r | r in spool.state.finalized && r.packet.taken ::
              |Waits(r.packet)| <= r.packet.again
    ensures alive ==> (NoneAgain(spool.state) <==>
              old(NoneAgain(spool.state)) && NoReplyTwice(old(spool.state), spool.contest, events))
    ensures alive && NoneAgain(spool.state) ==> forall r | r in spool.state.finalized :: VerdictForAll(r)
    ensures alive && old(spool.state) == START ==>
              Tells(spool.state, Told(START, spool.contest, events, map[]))
  {
    hide Spool.Valid, Step, VerdictForAll, Inv, Counted, NoReplyTwice, NoneAgain, Waits, Tells, Told;
    ghost var start := spool.state;
    StateOk(spool);
    assert events[0..] == events;
    var n := 0;
    while n < |events|
      invariant 0 <= n <= |events| && spool.Valid()
      invariant Steps(start, spool.contest, events) == Steps(spool.state, spool.contest, events[n..])
      invariant forall p | p in spool.packets :: p in old(spool.packets) || fresh(p)
    {
      assert events[n..][1..] == events[n + 1..] && events[n..][0] == events[n];
      assert forall i | 0 <= i < |spool.packets| :: spool.packets[i] in spool.packets;
      alive := Perform(spool, events[n]);
      if !alive { return false; }
      n := n + 1;
    }
    WhatValidMeans(spool);
    RunAgain(start, spool.contest, events);
    if start == START { VerdictsAreLast(spool.contest, events); }
    return true;
  }

  lemma StateOk(spool: Spool)
    requires spool.Valid()
    ensures Inv(spool.state, spool.contest) && spool.contest > 0
  {
    hide Inv;
  }

  lemma CountedIs(spool: Spool, p: PacketInfo)
    requires spool.Valid() && p in spool.packets
    ensures Counted(p)
  {
    hide Inv, CountFate, Waits;
    var k :| 0 <= k < |spool.packets| && spool.packets[k] == p;
    assert p.Valid() && p.View() == spool.state.packets[k];
    if p.errcode >= 0 { Conservation(spool.state, spool.contest, p.View()); }
  }

  lemma WhatValidMeans(spool: Spool)
    requires spool.Valid()
    ensures forall p | p in spool.packets :: Counted(p)
    ensures forall i, j | 0 <= i < j < |spool.state.finalized| ::
              spool.state.finalized[i].packet.serial != spool.state.finalized[j].packet.serial
    ensures forall p, r | p in spool.packets && r in spool.state.finalized :: p.serial != r.packet.serial
    ensures forall r | r in spool.state.finalized && r.packet.taken :: |Waits(r.packet)| <= r.packet.again
    ensures NoneAgain(spool.state) ==> forall r | r in spool.state.finalized :: VerdictForAll(r)
  {
    var s := spool.state;
    AtMostOnce(s);
    hide EachOnce, VerdictForAll, BlocksOk, PacketsOk, Counted, Waits;
    forall p | p in spool.packets ensures Counted(p) { CountedIs(spool, p); }
    forall r | r in s.finalized ensures r.packet.taken ==> |Waits(r.packet)| <= r.packet.again
      ensures NoneAgain(s) ==> VerdictForAll(r)
    {
      FinalizedHas(s, spool.contest, r);
    }
    forall p, r | p in spool.packets && r in s.finalized ensures p.serial != r.packet.serial {
      var k :| 0 <= k < |spool.packets| && spool.packets[k] == p;
      var m :| 0 <= m < |s.finalized| && s.finalized[m] == r;
      assert p.View() == s.packets[k] && s.packets[k].serial != s.finalized[m].packet.serial;
    }
  }
}
