/** ej-batch.c on values: what happens to packets of submits between the incoming and the outgoing spool. */
module BatchServer {
  import opened CTypes
  import opened PacketBytes
  import opened CompileReply
  import opened SubmitBlocks

  // ---------------------------------------------------------------- submits and their progress

  /** What the packet holds for one submit. */
  datatype Submit =
    | Missing
    | Submit(skipFlag: bool, probOk: bool, langOk: bool, fileSize: int, fileOk: bool,
             gzipped: bool, gunzipOk: bool, textOk: bool)

  /** What became of a submit when its packet was taken in. */
  datatype Fate = Queued | Ignored | WrongFormat | Refused

  function FateOf(sb: Submit): Fate {
    if sb.Missing? then Refused
    else if sb.skipFlag then Ignored
    else if !sb.probOk || !sb.langOk then Refused
    else if sb.fileSize <= 0 || !sb.fileOk || (sb.gzipped && !sb.gunzipOk) || !sb.textOk then WrongFormat
    else Queued
  }

  datatype Result = Result(status: int, score: int)

  /** How far a submit has come: its compile request has been sent, its run request has, or a result has been
      stored in the packet; a result stays until another one replaces it. */
  datatype Stage = InCompile | InRun | Done(result: Result)

  type Progress = map<int, Stage>

  /** A result is stored for the submit. */
  predicate HasVerdict(m: Progress, i: int) { i in m && m[i].Done? }

  lemma Removed(a: set<int>, i: int)
    ensures |a - {i}| == |a| - (if i in a then 1 else 0)
  {
    if i in a { assert a == (a - {i}) + {i}; } else { assert a - {i} == a; }
  }

  /** What taking in one more submit does to the progress of a packet. */
  function TakeIn(m: Progress, i: int, sb: Submit): Progress {
    if FateOf(sb) == Queued then m[i := InCompile] else m
  }

  function TakeInAll(m: Progress, i: int, sbs: seq<Submit>): Progress
    decreases |sbs|
  {
    if sbs == [] then m else TakeInAll(TakeIn(m, i, sbs[0]), i + 1, sbs[1..])
  }

  function CountFate(sbs: seq<Submit>, f: Fate): nat {
    if sbs == [] then 0 else (if FateOf(sbs[0]) == f then 1 else 0) + CountFate(sbs[1..], f)
  }

  predicate QueuedAt(sbs: seq<Submit>, i: int, k: int) {
    i <= k < i + |sbs| && FateOf(sbs[k - i]) == Queued
  }

  /** What is queued when submits numbered from i on are taken in: exactly those with nothing wrong. */
  lemma {:induction false} QueuedSubmits(m: Progress, i: int, sbs: seq<Submit>)
    requires forall k | k in m :: k < i
    ensures |TakeInAll(m, i, sbs)| == |m| + CountFate(sbs, Queued)
    ensures forall k :: k in TakeInAll(m, i, sbs) <==> k in m || QueuedAt(sbs, i, k)
    ensures (forall k | k in m :: m[k].InCompile?) ==>
              forall k | k in TakeInAll(m, i, sbs) :: TakeInAll(m, i, sbs)[k].InCompile?
    decreases |sbs|
  {
    if sbs == [] {
    } else {
      hide FateOf;
      var next := TakeIn(m, i, sbs[0]);
      QueuedSubmits(next, i + 1, sbs[1..]);
      forall k ensures QueuedAt(sbs, i, k) <==> (k == i && FateOf(sbs[0]) == Queued) || QueuedAt(sbs[1..], i + 1, k) {
        if i < k < i + |sbs| { assert sbs[1..][k - (i + 1)] == sbs[k - i]; }
      }
    }
  }

  function QueuedSet(sbs: seq<Submit>): set<int> { set k | 0 <= k < |sbs| && QueuedAt(sbs, 0, k) }

  lemma QueuedIs(sbs: seq<Submit>)
    ensures TakeInAll(map[], 0, sbs).Keys == QueuedSet(sbs)
    ensures |QueuedSet(sbs)| == CountFate(sbs, Queued)
    ensures forall i :: !HasVerdict(TakeInAll(map[], 0, sbs), i)
  {
    QueuedSubmits(map[], 0, sbs);
    hide CountFate, TakeInAll, FateOf;
    var m := TakeInAll(map[], 0, sbs);
    assert m.Keys == QueuedSet(sbs);
    assert |m.Keys| == |m|;
  }

  /** Every submit of a packet has one of four fates. */
  lemma {:induction false} FatesAddUp(sbs: seq<Submit>)
    ensures CountFate(sbs, Queued) + CountFate(sbs, Ignored) + CountFate(sbs, WrongFormat) + CountFate(sbs, Refused)
            == |sbs|
  {
    if sbs == [] {
    } else {
      FatesAddUp(sbs[1..]);
    }
  }

  // ---------------------------------------------------------------- packets

  /** A packet being handled. `serial` numbers the packets in the order of their arrival, `taken` tells that it
      could be read, `again` counts the verdicts that came for submits that did not wait for one. */
  datatype Packet = Packet(serial: nat, name: string, base: int, submits: seq<Submit>, taken: bool,
                           progress: Progress, pending: int, processed: nat, again: nat, completed: bool)

  function NewPacket(serial: nat, name: string, base: int, sbs: seq<Submit>): Packet {
    Packet(serial, name, base, sbs, true, TakeInAll(map[], 0, sbs), CountFate(sbs, Queued), 0, 0, false)
  }

  function FailedPacket(serial: nat, name: string, base: int, sbs: seq<Submit>): Packet {
    Packet(serial, name, base, sbs, false, map[], 0, 0, 0, true)
  }

  /** The queued submits without a verdict. */
  function Waits(p: Packet): set<int> { set i | i in QueuedSet(p.submits) && !HasVerdict(p.progress, i) }

  /** The packet had this run number. */
  predicate HasRun(p: Packet, runId: int) { p.taken && p.base <= runId < p.base + |p.submits| }

  /** A submit is compiled: its run request is sent. */
  function Sent(p: Packet, k: int): Packet {
    if HasVerdict(p.progress, k) then p else p.(progress := p.progress[k := InRun])
  }

  /** A submit gets a verdict, whether it waited for one or not. */
  function Judged(p: Packet, k: int, result: Result): Packet {
    p.(progress := p.progress[k := Done(result)], pending := p.pending - 1, processed := p.processed + 1,
       again := p.again + (if k in Waits(p) then 0 else 1), completed := p.completed || p.pending == 1)
  }

  /** What is needed to send a run request. */
  predicate CanRun(sb: Submit) { !sb.Missing? && sb.probOk && sb.langOk }

  /** process_compile_packet: a failed compilation is a verdict, a good one sends the submit on. */
  function OnCompiled(p: Packet, runId: int, status: int): Option<Packet> {
    var k := runId - p.base;
    if !(0 <= k < |p.submits|) || !ValidStatus(status) then None
    else if status != RUN_OK then Some(Judged(p, k, Result(status, 0)))
    else if !CanRun(p.submits[k]) then None
    else Some(Sent(p, k))
  }

  /** process_run_packet */
  function OnTested(p: Packet, runId: int, status: int, score: int, xmlOk: bool): Option<Packet> {
    var k := runId - p.base;
    if !(0 <= k < |p.submits|) || p.submits[k].Missing? || !xmlOk then None
    else Some(Judged(p, k, Result(status, score)))
  }

  // ---------------------------------------------------------------- the server

  /** What is left of a packet that was written to the outgoing spool. */
  datatype Record = Record(packet: Packet, errcode: int)

  datatype Server = Server(arrivals: nat, next: int, blocks: seq<Block<nat>>, packets: seq<Packet>,
                           finalized: seq<Record>)

  /** What the environment knows about an incoming packet. */
  datatype Incoming = Incoming(
    name: string, classKnown: bool, parseOk: bool, examKnown: bool, contestOk: bool, bindOk: bool,
    submits: seq<Submit>)

  /** What can happen: a packet arrives, the compile server answers with the bytes of a packet, the run server
      answers, or the checker looks around. `reportOk` tells that the report of a reply can be read, `xmlOk` that
      it can be parsed. */
  datatype Event =
    | Arrive(inp: Incoming)
    | Compiled(data: seq<Byte>, reportOk: bool)
    | Tested(contestId: int, runId: int, status: int, score: int, reportOk: bool, xmlOk: bool)
    | Check(generate: string -> int)

  function Kept(ps: seq<Packet>): seq<Packet> {
    if ps == [] then []
    else Kept(ps[..|ps| - 1]) + if ps[|ps| - 1].completed then [] else [ps[|ps| - 1]]
  }

  function RecordOf(p: Packet, generate: string -> int): Record {
    Record(p, if p.taken then generate(p.name) else -1)
  }

  function Ended(ps: seq<Packet>, generate: string -> int): seq<Record> {
    if ps == [] then []
    else Ended(ps[..|ps| - 1], generate) + if ps[|ps| - 1].completed then [RecordOf(ps[|ps| - 1], generate)] else []
  }

  const MAX_RUN_ID := 1000000

  /** The first run number of the next packet: back to 0 when the numbers run out. */
  function BaseFor(s: Server, count: nat): int { if s.next + count >= MAX_RUN_ID then 0 else s.next }

  predicate Handled(s: Server, name: string) { exists i | 0 <= i < |s.packets| :: s.packets[i].name == name }

  /** The packet is new and of a known class; it is read. */
  predicate Reads(s: Server, inp: Incoming) { !Handled(s, inp.name) && inp.classKnown }

  /** It is read so far that run numbers are given to it. */
  predicate Numbers(inp: Incoming) { inp.parseOk && inp.examKnown && inp.contestOk }

  /** The server with a new packet in front. */
  function WithPacket(s: Server, p: Packet): Server {
    s.(arrivals := s.arrivals + 1, packets := [p] + s.packets)
  }

  /** t3_spool_handler, process_packet; None when the server aborts. `contest` is the batch server's own contest. */
  function Arrival(s: Server, contest: int, inp: Incoming): Option<Server> {
    if !Reads(s, inp) then Some(s)
    else if !Numbers(inp) then Some(WithPacket(s, FailedPacket(s.arrivals, inp.name, 0, inp.submits)))
    else
      var count, base := |inp.submits|, BaseFor(s, |inp.submits|);
      var t := s.(next := base + count + 1);
      if !inp.bindOk then Some(WithPacket(t, FailedPacket(s.arrivals, inp.name, base, inp.submits)))
      else if !CanAdd(s.blocks, contest, base, count) then None
      else Some(WithPacket(t.(blocks := s.blocks + [Block(contest, base, count, s.arrivals)]),
                           NewPacket(s.arrivals, inp.name, base, inp.submits)))
  }

  /** The position of the packet with a serial number, or the length of the list. */
  function PacketAt(ps: seq<Packet>, serial: nat): (j: nat)
    ensures j <= |ps| && (j < |ps| ==> ps[j].serial == serial)
    ensures forall k | 0 <= k < j :: ps[k].serial != serial
  {
    if ps == [] || ps[0].serial == serial then 0 else 1 + PacketAt(ps[1..], serial)
  }

  /** The packet that a reply reaches, the length of the list when that packet was finalized and freed; None when
      no packet ever had the run number. */
  function Reached(s: Server, contestId: int, runId: int): (j: Option<nat>)
    ensures j.Some? ==> j.value <= |s.packets|
  {
    var i := FindBlock(s.blocks, contestId, runId);
    if i == |s.blocks| then None else Some(PacketAt(s.packets, s.blocks[i].data))
  }

  /** The reply is dropped: it has no block. */
  predicate Dropped(s: Server, contestId: int, runId: int, reportOk: bool) {
    contestId <= 0 || runId < 0 || !reportOk || Reached(s, contestId, runId).None?
  }

  /** Packet j after a reply; None when an assertion failed. */
  function Put(s: Server, j: nat, q: Option<Packet>): Option<Server>
    requires j < |s.packets|
  {
    if q.None? then None else Some(s.(packets := s.packets[j := q.value]))
  }

  function CompileReplied(s: Server, reply: Reply, reportOk: bool): Option<Server> {
    if Dropped(s, reply.contestId, reply.runId, reportOk) then Some(s)
    else
      var j := Reached(s, reply.contestId, reply.runId).value;
      if j == |s.packets| then None else Put(s, j, OnCompiled(s.packets[j], reply.runId, reply.status))
  }

  function RunReplied(s: Server, e: Event): Option<Server>
    requires e.Tested?
  {
    if Dropped(s, e.contestId, e.runId, e.reportOk) then Some(s)
    else
      var j := Reached(s, e.contestId, e.runId).value;
      if j == |s.packets| then None else Put(s, j, OnTested(s.packets[j], e.runId, e.status, e.score, e.xmlOk))
  }

  /** The next state, whatever the event; None when the server aborts or a reply reaches a packet that was freed,
      for which C does not say what happens. */
  function Step(s: Server, contest: int, e: Event): Option<Server> {
    match e
    case Arrive(inp) => Arrival(s, contest, inp)
    case Compiled(data, reportOk) =>
      var reply := ReplyReadSpec(data);
      if reply.None? then Some(s) else CompileReplied(s, reply.value, reportOk)
    case Tested(_, _, _, _, _, _) => RunReplied(s, e)
    case Check(generate) =>
      Some(s.(packets := Kept(s.packets), finalized := s.finalized + Ended(s.packets, generate)))
  }

  function Steps(s: Server, contest: int, es: seq<Event>): Option<Server>
    decreases |es|
  {
    if es == [] then Some(s)
    else
      var t :- Step(s, contest, es[0]);
      Steps(t, contest, es[1..])
  }

  // ---------------------------------------------------------------- no reply comes twice

  /** The contest and run number to which an event brings a verdict. */
  function Verdict(e: Event): Option<(int, int)> {
    match e
    case Compiled(data, reportOk) =>
      var reply := ReplyReadSpec(data);
      if reply.Some? && reportOk && reply.value.status != RUN_OK
      then Some((reply.value.contestId, reply.value.runId)) else None
    case Tested(c, r, _, _, reportOk, _) => if reportOk && c > 0 && r >= 0 then Some((c, r)) else None
    case _ => None
  }

  /** The event brings a verdict to this submit of a packet being handled. */
  predicate Judges(s: Server, e: Event, j: nat, k: int) {
    && Verdict(e).Some? && j < |s.packets|
    && Reached(s, Verdict(e).value.0, Verdict(e).value.1) == Some(j)
    && k == Verdict(e).value.1 - s.packets[j].base
  }

  /** An event brings no verdict, or one that a submit waits for. Other replies, even unasked ones, do no harm. */
  ghost predicate Awaited(s: Server, e: Event) {
    forall j: nat, k | Judges(s, e, j, k) :: k in Waits(s.packets[j])
  }

  /** No submit gets a second verdict, and none that was not queued gets one. */
  ghost predicate NoReplyTwice(s: Server, contest: int, es: seq<Event>)
    decreases |es|
  {
    es == [] ||
    (Awaited(s, es[0]) &&
     (Step(s, contest, es[0]).Some? ==> NoReplyTwice(Step(s, contest, es[0]).value, contest, es[1..])))
  }

  // ---------------------------------------------------------------- what every step keeps

  function Serials(ps: seq<Packet>): multiset<nat> {
    if ps == [] then multiset{} else Serials(ps[..|ps| - 1]) + multiset{ps[|ps| - 1].serial}
  }

  function RecordSerials(rs: seq<Record>): multiset<nat> {
    if rs == [] then multiset{} else RecordSerials(rs[..|rs| - 1]) + multiset{rs[|rs| - 1].packet.serial}
  }

  /** Every packet that arrived stands at most once in the list of packets or among the finalized ones. */
  ghost predicate EachOnce(s: Server) {
    forall x: nat :: Uses(s, x) <= if x < s.arrivals then 1 else 0
  }

  function Uses(s: Server, x: nat): nat { Serials(s.packets)[x] + RecordSerials(s.finalized)[x] }

  predicate NamesOk(ps: seq<Packet>) {
    forall i, j | 0 <= i < j < |ps| :: ps[i].name != ps[j].name
  }

  function BlockOf(contest: int, p: Packet): Block<nat> { Block(contest, p.base, |p.submits|, p.serial) }

  predicate Held(ps: seq<Packet>, contest: int, b: Block<nat>) {
    exists p | p in ps :: p.taken && BlockOf(contest, p) == b
  }

  predicate Gone(rs: seq<Record>, contest: int, b: Block<nat>) {
    exists r | r in rs :: r.packet.taken && BlockOf(contest, r.packet) == b
  }

  /** The run numbers of each packet that was taken in, finalized or not, form a block of their own, and there are
      no other blocks. */
  ghost predicate BlocksOk(s: Server, contest: int) {
    && Disjoint(s.blocks)
    && (forall b | b in s.blocks :: b.firstRunId >= 0)
    && (forall p | p in s.packets && p.taken :: BlockOf(contest, p) in s.blocks)
    && (forall r | r in s.finalized && r.packet.taken :: BlockOf(contest, r.packet) in s.blocks)
    && (forall b | b in s.blocks :: Held(s.packets, contest, b) || Gone(s.finalized, contest, b))
  }

  /** What the counters of a packet say, whatever replies came: `pending` lags behind the submits that wait by the
      verdicts that came for others, and the packet is completed when it has come down to 0. */
  ghost predicate CountsOk(p: Packet) {
    if !p.taken then p == FailedPacket(p.serial, p.name, p.base, p.submits)
    else
      && p.pending + p.processed == |QueuedSet(p.submits)|
      && p.pending == |Waits(p)| - p.again
      && (p.completed <==> QueuedSet(p.submits) != {} && p.pending <= 0)
      && (p.again == 0 ==> forall i | HasVerdict(p.progress, i) :: i in QueuedSet(p.submits))
  }

  /** A packet is finalized when it is completed, and is left alone then. */
  ghost predicate PacketsOk(s: Server) {
    && (forall p | p in s.packets :: CountsOk(p))
    && (forall r | r in s.finalized :: CountsOk(r.packet) && r.packet.completed)
  }

  ghost predicate Inv(s: Server, contest: int) {
    s.next >= 0 && EachOnce(s) && PacketsOk(s) && NamesOk(s.packets) && BlocksOk(s, contest)
  }

  /** No verdict came for a submit that did not wait for it. */
  predicate NoneAgain(s: Server) {
    && (forall p | p in s.packets :: p.again == 0)
    && (forall r | r in s.finalized :: r.packet.again == 0)
  }

  /** A packet was finalized with verdicts for exactly the submits that were queued. */
  ghost predicate VerdictForAll(r: Record) {
    forall i :: HasVerdict(r.packet.progress, i) <==> r.packet.taken && i in QueuedSet(r.packet.submits)
  }
}
