/** Compile reply packets (compile_packet_4.c, compile_packet_5.c): layout, writer and reader. */
module CompileReply {
  import opened CTypes
  import opened PacketBytes
  import opened CompileRequest

  const RUN_OK := 0
  const RUN_COMPILE_ERR := 1
  const RUN_CHECK_FAILED := 6
  const RUN_STYLE_ERR := 14

  /** struct compile_reply_packet */
  datatype Reply = Reply(
    judgeId: CInt, contestId: CInt, runId: CInt, status: CInt,
    ts1: CInt, ts1Us: CInt, ts2: CInt, ts2Us: CInt, ts3: CInt, ts3Us: CInt,
    runBlockLen: CInt, runBlock: seq<Byte>, useUuid: CInt, uuid: seq<U32>)

  /** struct compile_reply_bin_packet as 20 words. */
  const REPLY_WORDS := 20
  const REPLY_SIZE := 80
  const REPLY_VERSION := 1

  const R_PACKET_LEN := 0
  const R_VERSION := 1
  const R_JUDGE_ID := 2
  const R_CONTEST_ID := 3
  const R_RUN_ID := 4
  const R_STATUS := 5
  const R_TS1 := 6
  const R_TS2 := 8
  const R_TS3 := 10
  const R_RUN_BLOCK_LEN := 12
  const R_USE_UUID := 13
  const R_UUID := 14

  predicate ValidStatus(status: int) {
    status == RUN_OK || status == RUN_COMPILE_ERR || status == RUN_CHECK_FAILED || status == RUN_STYLE_ERR
  }

  predicate ReplyReadable(r: Reply) { |r.uuid| == 4 && r.runBlockLen <= |r.runBlock| }

  /** The checks of writer and reader on the fields. */
  predicate ReplyOk(r: Reply) {
    && InRange(r.judgeId, 0, EJ_MAX_JUDGE_ID)
    && InRange(r.contestId, 1, EJ_MAX_CONTEST_ID)
    && InRange(r.runId, 0, EJ_MAX_RUN_ID)
    && ValidStatus(r.status)
    && InRange(r.ts1Us, 0, USEC_MAX) && InRange(r.ts2Us, 0, USEC_MAX) && InRange(r.ts3Us, 0, USEC_MAX)
    && InRange(r.runBlockLen, 0, EJ_MAX_COMPILE_RUN_BLOCK_LEN)
  }

  function ReplyWord(r: Reply, size: CInt, k: nat): U32
    requires |r.uuid| == 4
  {
    if k == R_PACKET_LEN then Unsigned(size)
    else if k == R_VERSION then REPLY_VERSION
    else if k == R_JUDGE_ID then Unsigned(r.judgeId)
    else if k == R_CONTEST_ID then Unsigned(r.contestId)
    else if k == R_RUN_ID then Unsigned(r.runId)
    else if k == R_STATUS then Unsigned(r.status)
    else if k == R_TS1 then Unsigned(r.ts1)
    else if k == R_TS1 + 1 then Unsigned(r.ts1Us)
    else if k == R_TS2 then Unsigned(r.ts2)
    else if k == R_TS2 + 1 then Unsigned(r.ts2Us)
    else if k == R_TS3 then Unsigned(r.ts3)
    else if k == R_TS3 + 1 then Unsigned(r.ts3Us)
    else if k == R_RUN_BLOCK_LEN then Unsigned(r.runBlockLen)
    else if k == R_USE_UUID then Unsigned(r.useUuid)
    else if R_UUID <= k < R_UUID + 4 then r.uuid[k - R_UUID]
    else 0
  }

  function ReplyHeader(r: Reply, size: CInt): (ws: seq<U32>)
    requires |r.uuid| == 4
    ensures |ws| == REPLY_WORDS
  {
    seq(REPLY_WORDS, k requires 0 <= k < REPLY_WORDS => ReplyWord(r, size, k))
  }

  /** The packet compile_reply_packet_write builds, or None when it refuses. */
  function ReplyWriteSpec(r: Reply): Option<seq<Byte>>
    requires ReplyReadable(r)
  {
    if !ReplyOk(r) then None
    else
      var size := REPLY_SIZE + Align(r.runBlockLen);
      if size > EJ_MAX_COMPILE_PACKET_SIZE then None
      else Some(Words(ReplyHeader(r, size)) + Padded(r.runBlock[..r.runBlockLen]))
  }

  function ReplyFields(hdr: seq<U32>, block: seq<Byte>): Reply
    requires |hdr| == REPLY_WORDS
  {
    Reply(Signed(hdr[R_JUDGE_ID]), Signed(hdr[R_CONTEST_ID]), Signed(hdr[R_RUN_ID]), Signed(hdr[R_STATUS]),
          Signed(hdr[R_TS1]), Signed(hdr[R_TS1 + 1]), Signed(hdr[R_TS2]), Signed(hdr[R_TS2 + 1]),
          Signed(hdr[R_TS3]), Signed(hdr[R_TS3 + 1]), Signed(hdr[R_RUN_BLOCK_LEN]), block,
          Signed(hdr[R_USE_UUID]), [hdr[R_UUID], hdr[R_UUID + 1], hdr[R_UUID + 2], hdr[R_UUID + 3]])
  }

  /** The reply compile_reply_packet_read makes of arbitrary bytes, or None when it refuses them. */
  function ReplyReadSpec(p: seq<Byte>): Option<Reply> {
    if |p| < REPLY_SIZE then None
    else
      var hdr := WordsOf(p[..REPLY_SIZE]);
      var len := Signed(hdr[R_RUN_BLOCK_LEN]);
      if Signed(hdr[R_PACKET_LEN]) != |p| || |p| > EJ_MAX_COMPILE_PACKET_SIZE || |p| % 16 != 0 then None
      else if Signed(hdr[R_VERSION]) != REPLY_VERSION || !ReplyOk(ReplyFields(hdr, [])) then None
      else if REPLY_SIZE + Align(len) != |p| then None
      else Some(ReplyFields(hdr, p[REPLY_SIZE..REPLY_SIZE + len]))
  }

  lemma ReplyInt(r: Reply, size: CInt, k: nat, v: CInt)
    requires |r.uuid| == 4 && k < REPLY_WORDS && ReplyWord(r, size, k) == Unsigned(v)
    ensures Signed(ReplyHeader(r, size)[k]) == v
  {
    SignedUnsigned(v);
  }

  lemma ReplyHeaderRead(r: Reply, size: CInt, block: seq<Byte>)
    requires |r.uuid| == 4
    ensures var hdr := ReplyHeader(r, size);
            && ReplyFields(hdr, block) == r.(runBlock := block)
            && Signed(hdr[R_PACKET_LEN]) == size && Signed(hdr[R_VERSION]) == REPLY_VERSION
            && Signed(hdr[R_RUN_BLOCK_LEN]) == r.runBlockLen
  {
    ReplyInt(r, size, R_PACKET_LEN, size);
    ReplyInt(r, size, R_VERSION, REPLY_VERSION);
    ReplyInt(r, size, R_JUDGE_ID, r.judgeId);
    ReplyInt(r, size, R_CONTEST_ID, r.contestId);
    ReplyInt(r, size, R_RUN_ID, r.runId);
    ReplyInt(r, size, R_STATUS, r.status);
    ReplyInt(r, size, R_TS1, r.ts1);
    ReplyInt(r, size, R_TS1 + 1, r.ts1Us);
    ReplyInt(r, size, R_TS2, r.ts2);
    ReplyInt(r, size, R_TS2 + 1, r.ts2Us);
    ReplyInt(r, size, R_TS3, r.ts3);
    ReplyInt(r, size, R_TS3 + 1, r.ts3Us);
    ReplyInt(r, size, R_RUN_BLOCK_LEN, r.runBlockLen);
    ReplyInt(r, size, R_USE_UUID, r.useUuid);
  }

  /** Whatever the reply writer accepts, the reply reader accepts too, and it gets every field back. */
  lemma ReplyRoundTrip(r: Reply)
    requires ReplyReadable(r) && ReplyWriteSpec(r).Some?
    ensures ReplyReadSpec(ReplyWriteSpec(r).value) == Some(r.(runBlock := r.runBlock[..r.runBlockLen]))
  {
    hide Words, WordsOf, Signed, ReplyHeader, ReplyFields;
    var block := r.runBlock[..r.runBlockLen];
    var size := REPLY_SIZE + Align(r.runBlockLen);
    var hdr := ReplyHeader(r, size);
    var p := Words(hdr) + Padded(block);
    WordsRead(hdr);
    assert p[..REPLY_SIZE] == Words(hdr);
    assert p[REPLY_SIZE..REPLY_SIZE + |block|] == Padded(block)[..|block|];
    Mod16Sum(REPLY_SIZE, Align(r.runBlockLen));
    ReplyHeaderRead(r, size, []);
    ReplyHeaderRead(r, size, block);
  }

  // ---------------------------------------------------------------- the layout, and writing back what was read

  /** Which replies are accepted. */
  lemma WriterAccepts(r: Reply)
    requires ReplyReadable(r)
    ensures ReplyWriteSpec(r).Some? <==>
              && 0 <= r.judgeId <= 65535 && 1 <= r.contestId <= 999999 && 0 <= r.runId <= 999999
              && (r.status == 0 || r.status == 1 || r.status == 6 || r.status == 14)
              && 0 <= r.ts1Us <= 999999 && 0 <= r.ts2Us <= 999999 && 0 <= r.ts3Us <= 999999
              && 0 <= r.runBlockLen && 80 + Up16(r.runBlockLen) <= 65536
  {
    hide Words, ReplyHeader;
  }

  /** The fixed header of a packet that holds q: struct compile_reply_bin_packet. */
  predicate ReplySays(p: seq<Byte>, q: Reply)
    requires |p| >= 80
  {
    && IntAt(p, 0) == |p| && IntAt(p, 4) == 1
    && IntAt(p, 8) == q.judgeId && IntAt(p, 12) == q.contestId && IntAt(p, 16) == q.runId && IntAt(p, 20) == q.status
    && IntAt(p, 24) == q.ts1 && IntAt(p, 28) == q.ts1Us && IntAt(p, 32) == q.ts2 && IntAt(p, 36) == q.ts2Us
    && IntAt(p, 40) == q.ts3 && IntAt(p, 44) == q.ts3Us
    && IntAt(p, 48) == q.runBlockLen && IntAt(p, 52) == q.useUuid
    && q.uuid == [WordAt(p, 56), WordAt(p, 60), WordAt(p, 64), WordAt(p, 68)]
  }

  lemma SameWord(p: seq<Byte>, k: nat)
    requires k < 20 && |p| >= 80
    ensures WordsOf(p[..80])[k] == WordAt(p, 4 * k) && Signed(WordsOf(p[..80])[k]) == IntAt(p, 4 * k)
  {
  }

  /** Every packet that is read says what the reply says, field by field at its place, with the run block behind
      the header. */
  lemma ReplyMeans(p: seq<Byte>)
    requires ReplyReadSpec(p).Some?
    ensures var q := ReplyReadSpec(p).value;
            && |p| >= 80 && ReplySays(p, q)
            && 0 <= q.runBlockLen && |p| == 80 + Up16(q.runBlockLen) && q.runBlock == p[80..80 + q.runBlockLen]
  {
    hide WordsOf, Signed, WordAt, IntAt;
    forall k: nat | k < 20
      ensures WordsOf(p[..80])[k] == WordAt(p, 4 * k) && Signed(WordsOf(p[..80])[k]) == IntAt(p, 4 * k)
    {
      SameWord(p, k);
    }
  }

  /** Which packets are read. */
  lemma ReaderAccepts(p: seq<Byte>)
    ensures ReplyReadSpec(p).Some? <==>
              && |p| >= 80 && IntAt(p, 0) == |p| && |p| <= 65536 && |p| % 16 == 0 && IntAt(p, 4) == 1
              && 0 <= IntAt(p, 8) <= 65535 && 1 <= IntAt(p, 12) <= 999999 && 0 <= IntAt(p, 16) <= 999999
              && IntAt(p, 20) in {0, 1, 6, 14}
              && 0 <= IntAt(p, 28) <= 999999 && 0 <= IntAt(p, 36) <= 999999 && 0 <= IntAt(p, 44) <= 999999
              && 0 <= IntAt(p, 48) <= 65536 && 80 + Up16(IntAt(p, 48)) == |p|
  {
    hide WordsOf, Signed, WordAt, IntAt;
    if |p| >= 80 {
      forall k: nat | k < 20
        ensures WordsOf(p[..80])[k] == WordAt(p, 4 * k) && Signed(WordsOf(p[..80])[k]) == IntAt(p, 4 * k)
      {
        SameWord(p, k);
      }
    }
  }

  lemma ReplyHeaderRebuilt(hdr: seq<U32>, block: seq<Byte>, n: CInt)
    requires |hdr| == REPLY_WORDS && Signed(hdr[R_PACKET_LEN]) == n && Signed(hdr[R_VERSION]) == REPLY_VERSION
    ensures ReplyHeader(ReplyFields(hdr, block), n) == hdr <==> hdr[18] == 0 && hdr[19] == 0
  {
    var r := ReplyFields(hdr, block);
    forall k | 0 <= k < 18 ensures ReplyHeader(r, n)[k] == hdr[k] { UnsignedSigned(hdr[k]); }
    assert ReplyHeader(r, n)[18] == 0 && ReplyHeader(r, n)[19] == 0;
    if hdr[18] == 0 && hdr[19] == 0 {
      forall k | 0 <= k < REPLY_WORDS ensures ReplyHeader(r, n)[k] == hdr[k] {}
    }
  }

  lemma ReadIs(p: seq<Byte>)
    requires ReplyReadSpec(p).Some?
    ensures |p| >= 80 && |p| % 16 == 0 && |p| <= EJ_MAX_COMPILE_PACKET_SIZE
    ensures var hdr, r := WordsOf(p[..80]), ReplyReadSpec(p).value;
            && Signed(hdr[R_PACKET_LEN]) == |p| && Signed(hdr[R_VERSION]) == REPLY_VERSION
            && 0 <= r.runBlockLen && |p| == 80 + Align(r.runBlockLen) && r.runBlock == p[80..80 + r.runBlockLen]
            && r == ReplyFields(hdr, r.runBlock) && |r.uuid| == 4 && ReplyOk(r)
  {
    hide WordsOf, Signed, Align;
  }

  function Laid(hdr: seq<U32>, block: seq<Byte>): seq<Byte> { Words(hdr) + Padded(block) }

  lemma Rewritten(r: Reply, n: nat)
    requires |r.uuid| == 4 && ReplyOk(r) && r.runBlockLen == |r.runBlock|
    requires n == 80 + Align(r.runBlockLen) && n <= EJ_MAX_COMPILE_PACKET_SIZE
    ensures ReplyReadable(r) && ReplyWriteSpec(r) == Some(Laid(ReplyHeader(r, n), r.runBlock))
  {
    hide ReplyOk, Words, ReplyHeader, Padded, Align;
    assert r.runBlock[..r.runBlockLen] == r.runBlock;
  }

  /** The bytes that are written again are the same when the header and the block are. */
  lemma SameBytes(p: seq<Byte>, hdr: seq<U32>, block: seq<Byte>)
    requires |p| >= 80 && |hdr| == REPLY_WORDS
    ensures p == Laid(hdr, block) <==> WordsOf(p[..80]) == hdr && p[80..] == Padded(block)
  {
    hide Words, WordsOf, Padded;
    WordsWritten(p[..80]);
    assert p == p[..80] + p[80..];
    SameParts(p[..80], p[80..], Words(hdr), Padded(block));
    SameHeaders(WordsOf(p[..80]), hdr);
  }

  /** Whatever the reader accepts, the writer accepts too, and it makes the same bytes exactly when the padding of
      the header and behind the run block is zero. */
  lemma RewriteReply(p: seq<Byte>)
    requires ReplyReadSpec(p).Some?
    ensures var r := ReplyReadSpec(p).value;
            && ReplyReadable(r) && ReplyWriteSpec(r).Some?
            && (ReplyWriteSpec(r) == Some(p) <==>
                  ZeroAt(p, 72, 80) && 80 + r.runBlockLen <= |p| && ZeroAt(p, 80 + r.runBlockLen, |p|))
  {
    hide ReplyReadSpec, ReplyWriteSpec, Words, WordsOf, Signed, ReplyHeader, ReplyFields;
    hide ReplyOk, Align, Padded, Laid, ZeroAt;
    ReadIs(p);
    var hdr, r := WordsOf(p[..80]), ReplyReadSpec(p).value;
    Rewritten(r, |p|);
    SameBytes(p, ReplyHeader(r, |p|), r.runBlock);
    ReplyHeaderRebuilt(hdr, r.runBlock, |p|);
    PadWords(p);
    PaddedBlock(p, r.runBlockLen);
  }

  lemma SameParts(a: seq<Byte>, b: seq<Byte>, c: seq<Byte>, d: seq<Byte>)
    requires |a| == |c|
    ensures a + b == c + d <==> a == c && b == d
  {
    if a + b == c + d { assert a == (a + b)[..|a|] == c && b == (a + b)[|a|..] == d; }
  }

  lemma SameHeaders(a: seq<U32>, b: seq<U32>)
    ensures Words(a) == Words(b) <==> a == b
  {
    if Words(a) == Words(b) {
      WordsRead(a);
      WordsRead(b);
    }
  }

  lemma ZeroWord(p: seq<Byte>, a: nat)
    requires a + 4 <= |p|
    ensures WordAt(p, a) == 0 <==> ZeroAt(p, a, a + 4)
  {
    if ZeroAt(p, a, a + 4) { assert p[a] == 0 && p[a + 1] == 0 && p[a + 2] == 0 && p[a + 3] == 0; }
  }

  lemma PadWords(p: seq<Byte>)
    requires |p| >= 80
    ensures WordsOf(p[..80])[18] == 0 && WordsOf(p[..80])[19] == 0 <==> ZeroAt(p, 72, 80)
  {
    hide WordsOf, WordAt, Signed, IntAt;
    SameWord(p, 18);
    SameWord(p, 19);
    ZeroWord(p, 72);
    ZeroWord(p, 76);
  }

  lemma PaddedBlock(p: seq<Byte>, n: nat)
    requires |p| == 80 + Align(n)
    ensures 80 + n <= |p| && (p[80..] == Padded(p[80..80 + n]) <==> ZeroAt(p, 80 + n, |p|))
  {
    hide Align;
    var whole, s := p[80..], p[80..80 + n];
    if whole == Padded(s) {
      forall k | 80 + n <= k < |p| ensures p[k] == 0 { assert p[k] == whole[k - 80] == Padded(s)[k - 80]; }
    }
    if ZeroAt(p, 80 + n, |p|) {
      forall k | 0 <= k < |whole| ensures whole[k] == Padded(s)[k] {}
    }
  }

  // ---------------------------------------------------------------- the code

  /** compile_reply_packet_write; null stands for its error return. */
  method ReplyWrite(inData: Reply) returns (outData: array?<Byte>)
    requires ReplyReadable(inData)
    ensures outData == null <==> ReplyWriteSpec(inData) == None
    ensures outData != null ==> fresh(outData) && ReplyWriteSpec(inData) == Some(outData[..])
  {
    outData := null;
    if inData.judgeId < 0 || inData.judgeId > EJ_MAX_JUDGE_ID { return; }
    if inData.contestId <= 0 || inData.contestId > EJ_MAX_CONTEST_ID { return; }
    if inData.runId < 0 || inData.runId > EJ_MAX_RUN_ID { return; }
    if inData.status != RUN_OK && inData.status != RUN_COMPILE_ERR && inData.status != RUN_CHECK_FAILED
       && inData.status != RUN_STYLE_ERR { return; }
    if inData.ts1Us < 0 || inData.ts1Us > USEC_MAX { return; }
    if inData.ts2Us < 0 || inData.ts2Us > USEC_MAX { return; }
    if inData.ts3Us < 0 || inData.ts3Us > USEC_MAX { return; }
    if inData.runBlockLen < 0 || inData.runBlockLen > EJ_MAX_COMPILE_RUN_BLOCK_LEN { return; }
    assert ReplyOk(inData);
    hide ReplyOk, Words;
    var outSize: CInt := REPLY_SIZE;
    outSize := outSize + Align(inData.runBlockLen);
    if outSize < 0 || outSize > EJ_MAX_COMPILE_PACKET_SIZE { return; }

    var hdr := StoreReplyHeader(inData, outSize);
    var fixed := Words(hdr);
    var buf := new Byte[outSize](_ => 0);
    forall k | 0 <= k < REPLY_SIZE { buf[k] := fixed[k]; }
    if inData.runBlockLen != 0 {
      forall k | 0 <= k < inData.runBlockLen { buf[REPLY_SIZE + k] := inData.runBlock[k]; }
    }
    assert buf[..] == fixed + Padded(inData.runBlock[..inData.runBlockLen]);
    outData := buf;
  }

  method StoreReplyHeader(r: Reply, size: CInt) returns (hdr: seq<U32>)
    requires |r.uuid| == 4
    ensures hdr == ReplyHeader(r, size)
  {
    hdr := seq(REPLY_WORDS, _ => 0);
    hdr := hdr[R_PACKET_LEN := Unsigned(size)];
    hdr := hdr[R_VERSION := Unsigned(REPLY_VERSION)];
    hdr := hdr[R_JUDGE_ID := Unsigned(r.judgeId)];
    hdr := hdr[R_CONTEST_ID := Unsigned(r.contestId)];
    hdr := hdr[R_RUN_ID := Unsigned(r.runId)];
    hdr := hdr[R_STATUS := Unsigned(r.status)];
    hdr := hdr[R_TS1 := Unsigned(r.ts1)][R_TS1 + 1 := Unsigned(r.ts1Us)];
    hdr := hdr[R_TS2 := Unsigned(r.ts2)][R_TS2 + 1 := Unsigned(r.ts2Us)];
    hdr := hdr[R_TS3 := Unsigned(r.ts3)][R_TS3 + 1 := Unsigned(r.ts3Us)];
    hdr := hdr[R_USE_UUID := Unsigned(r.useUuid)];
    hdr := hdr[R_UUID := r.uuid[0]][R_UUID + 1 := r.uuid[1]][R_UUID + 2 := r.uuid[2]][R_UUID + 3 := r.uuid[3]];
    hdr := hdr[R_RUN_BLOCK_LEN := Unsigned(r.runBlockLen)];
  }

  /** The run block behind the header, which must end the packet. */
  method CopyRunBlock(inData: seq<Byte>, runBlockLen: nat) returns (ok: bool, runBlock: seq<Byte>)
    requires REPLY_SIZE <= |inData|
    ensures ok <==> REPLY_SIZE + Align(runBlockLen) == |inData|
    ensures ok ==> runBlock == inData[REPLY_SIZE..REPLY_SIZE + runBlockLen]
  {
    var inPtr: nat := REPLY_SIZE;
    var endPtr := |inData|;
    runBlock := [];
    AlignSum(REPLY_SIZE, runBlockLen);
    if runBlockLen > 0 {
      if inPtr + runBlockLen > endPtr { return false, runBlock; }
      runBlock := inData[inPtr..inPtr + runBlockLen];
      inPtr := inPtr + runBlockLen;
    }
    inPtr := Align(inPtr);
    return inPtr == endPtr, runBlock;
  }

  /** compile_reply_packet_read */
  method ReplyRead(inData: seq<Byte>) returns (pout: Option<Reply>)
    ensures pout == ReplyReadSpec(inData)
  {
    hide WordsOf, Signed, Align;
    if |inData| < REPLY_SIZE { return None; }
    var pin := WordsOf(inData[..REPLY_SIZE]);
    var pktSize := Signed(pin[R_PACKET_LEN]);
    if pktSize != |inData| { return None; }
    if pktSize < 0 || pktSize > EJ_MAX_COMPILE_PACKET_SIZE { return None; }
    if pktSize % 16 != 0 { return None; }
    if Signed(pin[R_VERSION]) != REPLY_VERSION { return None; }
    var judgeId := Signed(pin[R_JUDGE_ID]);
    if judgeId < 0 || judgeId > EJ_MAX_JUDGE_ID { return None; }
    var contestId := Signed(pin[R_CONTEST_ID]);
    if contestId <= 0 || contestId > EJ_MAX_CONTEST_ID { return None; }
    var runId := Signed(pin[R_RUN_ID]);
    if runId < 0 || runId > EJ_MAX_RUN_ID { return None; }
    var status := Signed(pin[R_STATUS]);
    if status != RUN_OK && status != RUN_COMPILE_ERR && status != RUN_CHECK_FAILED && status != RUN_STYLE_ERR {
      return None;
    }
    var ts1, ts1Us := Signed(pin[R_TS1]), Signed(pin[R_TS1 + 1]);
    if ts1Us < 0 || ts1Us > USEC_MAX { return None; }
    var ts2, ts2Us := Signed(pin[R_TS2]), Signed(pin[R_TS2 + 1]);
    if ts2Us < 0 || ts2Us > USEC_MAX { return None; }
    var ts3, ts3Us := Signed(pin[R_TS3]), Signed(pin[R_TS3 + 1]);
    if ts3Us < 0 || ts3Us > USEC_MAX { return None; }
    var useUuid := Signed(pin[R_USE_UUID]);
    var uuid := [pin[R_UUID], pin[R_UUID + 1], pin[R_UUID + 2], pin[R_UUID + 3]];
    var runBlockLen := Signed(pin[R_RUN_BLOCK_LEN]);
    if runBlockLen < 0 || runBlockLen > EJ_MAX_COMPILE_RUN_BLOCK_LEN { return None; }
    assert ReplyOk(ReplyFields(pin, []));
    hide ReplyOk;
    var ok, runBlock := CopyRunBlock(inData, runBlockLen);
    if !ok { return None; }
    return Some(Reply(judgeId, contestId, runId, status, ts1, ts1Us, ts2, ts2Us, ts3, ts3Us,
                      runBlockLen, runBlock, useUuid, uuid));
  }
}
