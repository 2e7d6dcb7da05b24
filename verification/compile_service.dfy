/** compile.c: how the compile server turns an accepted request into a reply. */
module CompileService {
  import opened CTypes
  import opened PacketBytes
  import opened CompileRequest
  import opened CompileRequestLaws
  import opened CompilePacket
  import opened CompileReply

  const RUN_PRESENTATION_ERR := 4
  const RUN_WRONG_ANSWER_ERR := 5

  /** How a child process ended: it could not be started, ran out of time, or ended by itself. */
  datatype Task = NotStarted | TimedOut | Signaled | Exited(code: int) | OtherEnd

  /** Everything a reply depends on besides the request: clock readings, the configured languages, the
      outcome of copying the source file (0: missing, negative: error) and of the two processes. */
  datatype World = World(
    ts2: CInt, ts2Us: CInt, ts3: CInt, ts3Us: CInt,
    languages: set<int>, maxLang: int, copyResult: int, style: Task, compilation: Task)

  /** get_current_time gives microseconds of a second. */
  predicate ClockOk(w: World) { InRange(w.ts2Us, 0, USEC_MAX) && InRange(w.ts3Us, 0, USEC_MAX) }

  /** A non-zero exit code, a signal or anything else unexpected. */
  predicate Abnormal(t: Task) { t != Exited(0) }

  /** check_style_only */
  method CheckStyleOnly(w: World) returns (status: int)
    ensures status in {0, 6, 14}
    ensures status == 0 <==> w.copyResult > 0 && w.style == Exited(0)
    ensures status == 14 <==> w.copyResult > 0 && w.style.Exited? && w.style.code in {1, 4, 5, 14}
  {
    if w.copyResult == 0 { return RUN_CHECK_FAILED; }
    if w.copyResult < 0 { return RUN_CHECK_FAILED; }
    if w.style == NotStarted { return RUN_CHECK_FAILED; }
    if w.style == TimedOut { return RUN_CHECK_FAILED; }
    if w.style == OtherEnd { return RUN_CHECK_FAILED; }
    if w.style == Signaled { return RUN_CHECK_FAILED; }
    var r := w.style.code;
    if r != 0 && r != RUN_COMPILE_ERR && r != RUN_PRESENTATION_ERR && r != RUN_WRONG_ANSWER_ERR
       && r != RUN_STYLE_ERR { return RUN_CHECK_FAILED; }
    if r != 0 { return RUN_STYLE_ERR; }
    return RUN_OK;
  }

  /** Which outcomes of the processes make which verdict; whatever is none of these is a failed check (6). */
  predicate StatusFits(req: Request, w: World, status: int) {
    var styleOnly := req.styleCheckOnly != 0 && req.styleChecker.Some? && req.styleChecker.value != []
                     && req.styleChecker.value[0] != 0;
    var known := 0 < req.langId <= w.maxLang && req.langId in w.languages;
    var styleOk := req.styleChecker.Some? ==> w.style == Exited(0);
    && status in {0, 1, 6, 14}
    && (status == 0 <==>
          w.copyResult > 0 &&
          if styleOnly then w.style == Exited(0)
          else known && (req.outputOnly != 0 || (styleOk && w.compilation == Exited(0))))
    && (status == 1 <==>
          w.copyResult > 0 && !styleOnly && known && req.outputOnly == 0 && styleOk && w.compilation != Exited(0))
    && (status == 14 <==>
          w.copyResult > 0 &&
          if styleOnly then w.style.Exited? && w.style.code in {1, 4, 5, 14}
          else known && req.outputOnly == 0 && !styleOk)
  }

  /** The status do_loop ends up with. */
  method CompileStatus(req: Request, w: World) returns (status: int)
    ensures StatusFits(req, w, status)
  {
    if req.styleCheckOnly != 0 && req.styleChecker.Some? && StringOf(req.styleChecker) != [] {
      status := CheckStyleOnly(w);
      return;
    }
    if req.langId <= 0 || req.langId > w.maxLang || req.langId !in w.languages { return RUN_CHECK_FAILED; }
    if w.copyResult == 0 { return RUN_CHECK_FAILED; }
    if w.copyResult < 0 { return RUN_CHECK_FAILED; }
    var ceFlag := false;
    status := RUN_OK;
    if req.outputOnly != 0 {
      status := RUN_OK;
    } else {
      if req.styleChecker.Some? {
        if w.style == NotStarted {
          ceFlag, status := true, RUN_STYLE_ERR;
        } else if w.style == TimedOut {
          ceFlag, status := true, RUN_STYLE_ERR;
        } else if Abnormal(w.style) {
          ceFlag, status := true, RUN_STYLE_ERR;
        } else {
          ceFlag, status := false, RUN_OK;
        }
      }
      if !ceFlag {
        if w.compilation == TimedOut {
          ceFlag, status := true, RUN_COMPILE_ERR;
        } else if Abnormal(w.compilation) {
          ceFlag, status := true, RUN_COMPILE_ERR;
        } else {
          ceFlag, status := false, RUN_OK;
        }
      }
    }
  }

  /** The reply to a request, apart from how the status was found. */
  function ReplyTo(req: Request, w: World, status: CInt): Reply {
    Reply(req.judgeId, req.contestId, req.runId, status, req.ts1, req.ts1Us,
          w.ts2, w.ts2Us, w.ts3, w.ts3Us, req.runBlockLen, req.runBlock, req.useUuid, req.uuid)
  }

  /** What a reply, status apart, has to say: whose run it is about, when it was asked for, taken and done, and the
      block that the asking side sent along for itself. */
  predicate AnswerTo(req: Request, w: World, got: Reply) {
    && got.judgeId == req.judgeId && got.contestId == req.contestId && got.runId == req.runId
    && got.ts1 == req.ts1 && got.ts1Us == req.ts1Us
    && got.ts2 == w.ts2 && got.ts2Us == w.ts2Us && got.ts3 == w.ts3 && got.ts3Us == w.ts3Us
    && got.useUuid == req.useUuid && got.uuid == req.uuid
    && got.runBlockLen == req.runBlockLen && got.runBlock == req.runBlock
  }

  /** A request that was read holds its run block whole, inside a packet 112 bytes longer. */
  lemma ReadRunBlock(p: seq<Byte>)
    requires ReadSpec(p).Some?
    ensures var req := ReadSpec(p).value;
            && req.runBlockLen == |req.runBlock| && |req.uuid| == 4
            && HEADER_SIZE + Align(|req.runBlock|) <= |p| <= EJ_MAX_COMPILE_PACKET_SIZE
            && InRange(req.judgeId, 0, EJ_MAX_JUDGE_ID) && InRange(req.contestId, 0, EJ_MAX_CONTEST_ID)
            && InRange(req.runId, 0, EJ_MAX_RUN_ID) && InRange(req.ts1Us, 0, USEC_MAX)
            && req.runBlockLen <= EJ_MAX_COMPILE_RUN_BLOCK_LEN
  {
    hide Signed, Join, TakeParts, WordsOf, EnvBlock, Padded, GapsZero;
    var hdr := WordsOf(p[..HEADER_SIZE]);
    BodyGaps(p, hdr);
  }

  /** Whatever status the server finds, its reply passes every check of the writer, is shorter than the request, and
      brings the ids, the times, the uuid and the run block of the request back to the other side. */
  lemma EveryRequestIsAnswered(p: seq<Byte>, w: World, status: CInt)
    requires ReadSpec(p).Some? && ReadSpec(p).value.contestId > 0
    requires ClockOk(w) && ValidStatus(status)
    ensures var reply := ReplyTo(ReadSpec(p).value, w, status);
            && ReplyReadable(reply)
            && ReplyWriteSpec(reply).Some?
            && |ReplyWriteSpec(reply).value| < |p|
            && ReplyReadSpec(ReplyWriteSpec(reply).value) == Some(reply)
            && reply.status == status && AnswerTo(ReadSpec(p).value, w, reply)
  {
    hide ReadSpec, Words, ReplyHeader, ReplyReadSpec, Align;
    ReadRunBlock(p);
    var reply := ReplyTo(ReadSpec(p).value, w, status);
    ReplyRoundTrip(reply);
    assert reply.runBlock[..reply.runBlockLen] == reply.runBlock;
  }

  /** One turn of do_loop: null when the packet is dropped or is one of the special ones. */
  method Serve(pkt: seq<Byte>, w: World) returns (rplPkt: array?<Byte>)
    requires ClockOk(w)
    ensures rplPkt == null <==> ReadSpec(pkt).None? || ReadSpec(pkt).value.contestId == 0
    ensures rplPkt != null ==>
              var req, got := ReadSpec(pkt).value, ReplyReadSpec(rplPkt[..]);
              && got.Some? && StatusFits(req, w, got.value.status)
              && got.value == ReplyTo(req, w, got.value.status)
              && AnswerTo(req, w, got.value)
              && rplPkt.Length < |pkt|
  {
    hide ReadSpec, ReplyReadSpec, ReplyWriteSpec;
    rplPkt := null;
    var req := RequestRead(pkt);
    if req.None? { return; }
    if req.value.contestId == 0 { return; }
    ReadRunBlock(pkt);
    var status := CompileStatus(req.value, w);
    EveryRequestIsAnswered(pkt, w, status);
    rplPkt := ReplyWrite(ReplyTo(req.value, w, status));
  }
}
