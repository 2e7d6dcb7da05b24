/** Compile request packets on values: their layout, what the writer puts there and what the reader
    makes of arbitrary bytes (compile_packet.h, compile_packet_priv.h, ej_limits.h). */
module CompileRequest {
  import opened CTypes
  import opened PacketBytes

  const EJ_MAX_CONTEST_ID := 999999
  const EJ_MAX_RUN_ID := 999999
  const EJ_MAX_LANG_ID := 999999
  const EJ_MAX_JUDGE_ID := 65535
  const EJ_MAX_LOCALE_ID := 127
  const EJ_MAX_COMPILE_PACKET_SIZE := 65536
  const EJ_MAX_COMPILE_RUN_BLOCK_LEN := 65536
  const EJ_MAX_COMPILE_ENV_NUM := 65536
  const EJ_MAX_COMPILE_ENV_LEN := 65535
  const USEC_MAX := 999999
  /** From the system's limits.h; the value is Linux's. */
  const PATH_MAX := 4096
  const EJ_COMPILE_PACKET_VERSION := 5

  /** struct compile_request_packet. A string is given by the bytes its buffer holds in front of a
      final NUL; the C string in it ends at the first NUL. An environment is the array in front of
      its null pointer. */
  datatype Request = Request(
    judgeId: CInt, contestId: CInt, runId: CInt, langId: CInt, localeId: CInt,
    outputOnly: CInt, styleCheckOnly: CInt, ts1: CInt, ts1Us: CInt,
    useUuid: CInt, uuid: seq<U32>,
    maxVmSize: U64, maxStackSize: U64, maxFileSize: U64,
    styleChecker: Option<seq<Byte>>, srcSfx: Option<seq<Byte>>,
    runBlockLen: CInt, runBlock: seq<Byte>,
    envNum: CInt, scEnvNum: CInt,
    envVars: Option<seq<seq<Byte>>>, scEnvVars: Option<seq<seq<Byte>>>)

  // ---------------------------------------------------------------- the fixed header

  /** struct compile_request_bin_packet as 28 words; the three 64-bit sizes take two words each. */
  const HEADER_WORDS := 28
  const HEADER_SIZE := 112

  const PACKET_LEN := 0
  const VERSION := 1
  const JUDGE_ID := 2
  const CONTEST_ID := 3
  const RUN_ID := 4
  const LANG_ID := 5
  const LOCALE_ID := 6
  const OUTPUT_ONLY := 7
  const MAX_VM_SIZE := 8
  const MAX_STACK_SIZE := 10
  const MAX_FILE_SIZE := 12
  const STYLE_CHECK_ONLY := 14
  const TS1 := 15
  const TS1_US := 16
  const STYLE_CHECKER_LEN := 17
  const SRC_SFX_LEN := 18
  const RUN_BLOCK_LEN := 19
  const ENV_NUM := 20
  const SC_ENV_NUM := 21
  const USE_UUID := 22
  const UUID := 23
  const PAD := 27

  predicate InRange(v: int, lo: int, hi: int) { lo <= v <= hi }

  /** The variable-length parts of a packet, in order. */
  datatype Parts = Parts(style: seq<Byte>, src: seq<Byte>, run: seq<Byte>,
                         env: seq<seq<Byte>>, scEnv: seq<seq<Byte>>)

  // ---------------------------------------------------------------- layout

  predicate EnvFits(ss: seq<seq<Byte>>) {
    |ss| <= EJ_MAX_COMPILE_ENV_NUM && forall k | 0 <= k < |ss| :: |ss[k]| <= EJ_MAX_COMPILE_ENV_LEN
  }

  function LengthWords(ss: seq<seq<Byte>>): (ws: seq<U32>)
    requires EnvFits(ss)
    ensures |ws| == |ss|
  {
    seq(|ss|, k requires 0 <= k < |ss| => |ss[k]|)
  }

  /** The aligned array of lengths, then the strings packed without gaps, aligned at the end. */
  function EnvBlock(ss: seq<seq<Byte>>): (b: seq<Byte>)
    requires EnvFits(ss)
    ensures |b| % 16 == 0
  {
    if ss == [] then [] else Padded(Padded(Words(LengthWords(ss))) + Concat(ss))
  }

  predicate PartsFit(t: Parts) {
    |t.style| <= PATH_MAX && |t.src| <= PATH_MAX && |t.run| <= EJ_MAX_COMPILE_RUN_BLOCK_LEN &&
    EnvFits(t.env) && EnvFits(t.scEnv)
  }

  function Body(t: Parts): seq<Byte>
    requires PartsFit(t)
  {
    Padded(t.style) + (Padded(t.src) + (Padded(t.run) + (EnvBlock(t.env) + EnvBlock(t.scEnv))))
  }

  lemma BodyAligned(t: Parts)
    requires PartsFit(t)
    ensures |Body(t)| % 16 == 0
  {
    hide Padded, EnvBlock;
    var e := |EnvBlock(t.env)| + |EnvBlock(t.scEnv)|;
    Mod16Sum(|EnvBlock(t.env)|, |EnvBlock(t.scEnv)|);
    Mod16Sum(|Padded(t.run)|, e);
    Mod16Sum(|Padded(t.src)|, |Padded(t.run)| + e);
    Mod16Sum(|Padded(t.style)|, |Padded(t.src)| + (|Padded(t.run)| + e));
  }

  // ---------------------------------------------------------------- writing

  /** The pointers a caller hands over must be readable as far as the counts say. */
  predicate Readable(r: Request) {
    && |r.uuid| == 4
    && r.runBlockLen <= |r.runBlock|
    && (r.envNum > 0 ==> r.envVars.Some? && r.envNum <= |r.envVars.value|)
    && (r.scEnvNum > 0 ==> r.scEnvVars.Some? && r.scEnvNum <= |r.scEnvVars.value|)
  }

  function StringOf(s: Option<seq<Byte>>): seq<Byte> {
    if s.Some? then CStr<Byte>(s.value, 0) else []
  }

  /** -1 asks the writer to count the variables. */
  function EnvCount(num: CInt, vars: Option<seq<seq<Byte>>>): int {
    if num == -1 then if vars.Some? then |vars.value| else 0 else num
  }

  function EnvOf(num: CInt, vars: Option<seq<seq<Byte>>>): (ss: seq<seq<Byte>>)
    requires num > 0 ==> vars.Some? && num <= |vars.value|
    ensures EnvCount(num, vars) >= 0 ==> |ss| == EnvCount(num, vars)
  {
    var n := EnvCount(num, vars);
    if n <= 0 then [] else seq(n, k requires 0 <= k < n => CStr<Byte>(vars.value[k], 0))
  }

  function PartsOf(r: Request): Parts
    requires Readable(r)
  {
    Parts(StringOf(r.styleChecker), StringOf(r.srcSfx),
          if r.runBlockLen < 0 then [] else r.runBlock[..r.runBlockLen],
          EnvOf(r.envNum, r.envVars), EnvOf(r.scEnvNum, r.scEnvVars))
  }

  /** The checks of the writer, the packet size excepted. */
  predicate FieldsOk(r: Request)
    requires Readable(r)
  {
    && InRange(r.judgeId, 0, EJ_MAX_JUDGE_ID)
    && InRange(r.contestId, 0, EJ_MAX_CONTEST_ID)
    && InRange(r.runId, 0, EJ_MAX_RUN_ID)
    && InRange(r.langId, 0, EJ_MAX_LANG_ID)
    && InRange(r.localeId, 0, EJ_MAX_LOCALE_ID)
    && InRange(r.outputOnly, 0, 1)
    && InRange(r.styleCheckOnly, 0, 1)
    && InRange(r.ts1Us, 0, USEC_MAX)
    && r.runBlockLen >= 0 && r.envNum >= -1 && r.scEnvNum >= -1
    && PartsFit(PartsOf(r))
  }

  /** What the writer stores in each word of the header. */
  function HeaderWord(r: Request, t: Parts, size: CInt, k: nat): U32
    requires |r.uuid| == 4 && PartsFit(t)
  {
    if k == PACKET_LEN then Unsigned(size)
    else if k == VERSION then EJ_COMPILE_PACKET_VERSION
    else if k == JUDGE_ID then Unsigned(r.judgeId)
    else if k == CONTEST_ID then Unsigned(r.contestId)
    else if k == RUN_ID then Unsigned(r.runId)
    else if k == LANG_ID then Unsigned(r.langId)
    else if k == LOCALE_ID then Unsigned(r.localeId)
    else if k == OUTPUT_ONLY then Unsigned(r.outputOnly)
    else if k == MAX_VM_SIZE then Low(r.maxVmSize)
    else if k == MAX_VM_SIZE + 1 then High(r.maxVmSize)
    else if k == MAX_STACK_SIZE then Low(r.maxStackSize)
    else if k == MAX_STACK_SIZE + 1 then High(r.maxStackSize)
    else if k == MAX_FILE_SIZE then Low(r.maxFileSize)
    else if k == MAX_FILE_SIZE + 1 then High(r.maxFileSize)
    else if k == STYLE_CHECK_ONLY then Unsigned(r.styleCheckOnly)
    else if k == TS1 then Unsigned(r.ts1)
    else if k == TS1_US then Unsigned(r.ts1Us)
    else if k == STYLE_CHECKER_LEN then Unsigned(|t.style|)
    else if k == SRC_SFX_LEN then Unsigned(|t.src|)
    else if k == RUN_BLOCK_LEN then Unsigned(|t.run|)
    else if k == ENV_NUM then Unsigned(|t.env|)
    else if k == SC_ENV_NUM then Unsigned(|t.scEnv|)
    else if k == USE_UUID then Unsigned(r.useUuid)
    else if UUID <= k < UUID + 4 then r.uuid[k - UUID]
    else 0
  }

  function HeaderOf(r: Request, t: Parts, size: CInt): (ws: seq<U32>)
    requires |r.uuid| == 4 && PartsFit(t)
    ensures |ws| == HEADER_WORDS
  {
    seq(HEADER_WORDS, k requires 0 <= k < HEADER_WORDS => HeaderWord(r, t, size, k))
  }

  /** The packet the writer builds, or None when it refuses. */
  function WriteSpec(r: Request): Option<seq<Byte>>
    requires Readable(r)
  {
    if !FieldsOk(r) then None
    else
      var t := PartsOf(r);
      var size := HEADER_SIZE + |Body(t)|;
      if size > EJ_MAX_COMPILE_PACKET_SIZE then None else Some(Words(HeaderOf(r, t, size)) + Body(t))
  }

  // ---------------------------------------------------------------- reading

  /** The reader's checks on the fields of the header of a packet of n bytes, the lengths of its parts excepted. */
  predicate FixedOk(hdr: seq<U32>, n: nat)
    requires |hdr| == HEADER_WORDS
  {
    && Signed(hdr[PACKET_LEN]) == n && n <= EJ_MAX_COMPILE_PACKET_SIZE && n % 16 == 0
    && Signed(hdr[VERSION]) == EJ_COMPILE_PACKET_VERSION
    && InRange(Signed(hdr[JUDGE_ID]), 0, EJ_MAX_JUDGE_ID)
    && InRange(Signed(hdr[CONTEST_ID]), 0, EJ_MAX_CONTEST_ID)
    && InRange(Signed(hdr[RUN_ID]), 0, EJ_MAX_RUN_ID)
    && (Signed(hdr[CONTEST_ID]) > 0 ==> Signed(hdr[LANG_ID]) >= 0)
    && InRange(Signed(hdr[LOCALE_ID]), 0, EJ_MAX_LOCALE_ID)
    && InRange(Signed(hdr[OUTPUT_ONLY]), 0, 1)
    && InRange(Signed(hdr[STYLE_CHECK_ONLY]), 0, 1)
    && InRange(Signed(hdr[TS1_US]), 0, USEC_MAX)
  }

  predicate HeaderOk(hdr: seq<U32>, n: nat)
    requires |hdr| == HEADER_WORDS
  {
    && FixedOk(hdr, n)
    && InRange(Signed(hdr[STYLE_CHECKER_LEN]), 0, PATH_MAX)
    && InRange(Signed(hdr[SRC_SFX_LEN]), 0, PATH_MAX)
    && InRange(Signed(hdr[RUN_BLOCK_LEN]), 0, EJ_MAX_COMPILE_RUN_BLOCK_LEN)
    && InRange(Signed(hdr[ENV_NUM]), 0, EJ_MAX_COMPILE_ENV_NUM)
    && InRange(Signed(hdr[SC_ENV_NUM]), 0, EJ_MAX_COMPILE_ENV_NUM)
  }

  /** len bytes at pos; the cursor then moves by the aligned length. */
  function TakeBlob(p: seq<Byte>, pos: nat, len: nat): (r: Option<(seq<Byte>, nat)>)
    requires |p| % 16 == 0 && pos % 16 == 0 && pos <= |p|
    ensures r.Some? ==> r.value.1 % 16 == 0 && r.value.1 == pos + Align(len) <= |p| && |r.value.0| == len
  {
    if pos + len > |p| then None
    else
      AlignBound(pos + len, |p|);
      AlignSum(pos, len);
      Some((p[pos..pos + len], pos + Align(len)))
  }

  function TakeStrings(p: seq<Byte>, pos: nat, lens: seq<nat>): (r: Option<(seq<seq<Byte>>, nat)>)
    requires pos <= |p|
    ensures r.Some? ==>
              && r.value.1 == pos + Total(lens) <= |p| && |r.value.0| == |lens|
              && forall k | 0 <= k < |lens| :: |r.value.0[k]| == lens[k]
    decreases |lens|
  {
    if lens == [] then Some(([], pos))
    else if pos + lens[0] > |p| then None
    else
      var (ss, end) :- TakeStrings(p, pos + lens[0], lens[1..]);
      Some(([p[pos..pos + lens[0]]] + ss, end))
  }

  predicate LengthsOk(ws: seq<U32>) {
    forall k | 0 <= k < |ws| :: InRange(Signed(ws[k]), 0, EJ_MAX_COMPILE_ENV_LEN)
  }

  function AsLengths(ws: seq<U32>): (ns: seq<nat>)
    requires LengthsOk(ws)
    ensures |ns| == |ws| && forall k | 0 <= k < |ws| :: ns[k] == Signed(ws[k]) <= EJ_MAX_COMPILE_ENV_LEN
  {
    seq(|ws|, k requires 0 <= k < |ws| => Signed(ws[k]) as nat)
  }

  /** num strings at pos, their lengths in front; the cursor ends aligned. */
  function TakeEnv(p: seq<Byte>, pos: nat, num: nat): (r: Option<(seq<seq<Byte>>, nat)>)
    requires |p| % 16 == 0 && pos % 16 == 0 && pos <= |p|
    ensures r.Some? ==> r.value.1 % 16 == 0 && pos <= r.value.1 <= |p| && |r.value.0| == num
    ensures r.Some? ==> forall k | 0 <= k < num :: |r.value.0[k]| <= EJ_MAX_COMPILE_ENV_LEN
  {
    var (bytes, from) :- TakeBlob(p, pos, 4 * num);
    if !LengthsOk(WordsOf(bytes)) then None
    else
      var (ss, end) :- TakeStrings(p, from, AsLengths(WordsOf(bytes)));
      AlignBound(end, |p|);
      Some((ss, Align(end)))
  }

  /** Everything behind the header, with nothing left over. */
  function TakeParts(p: seq<Byte>, hdr: seq<U32>): (r: Option<Parts>)
    requires |hdr| == HEADER_WORDS && HeaderOk(hdr, |p|) && |p| >= HEADER_SIZE
    ensures r.Some? ==>
              && PartsFit(r.value)
              && |r.value.style| == Signed(hdr[STYLE_CHECKER_LEN]) && |r.value.src| == Signed(hdr[SRC_SFX_LEN])
              && |r.value.run| == Signed(hdr[RUN_BLOCK_LEN])
              && |r.value.env| == Signed(hdr[ENV_NUM]) && |r.value.scEnv| == Signed(hdr[SC_ENV_NUM])
  {
    var (style, p1) :- TakeBlob(p, HEADER_SIZE, Signed(hdr[STYLE_CHECKER_LEN]));
    var (src, p2) :- TakeBlob(p, p1, Signed(hdr[SRC_SFX_LEN]));
    var (run, p3) :- TakeBlob(p, p2, Signed(hdr[RUN_BLOCK_LEN]));
    var (env, p4) :- TakeEnv(p, p3, Signed(hdr[ENV_NUM]));
    var (scEnv, p5) :- TakeEnv(p, p4, Signed(hdr[SC_ENV_NUM]));
    if p5 != |p| then None else Some(Parts(style, src, run, env, scEnv))
  }

  function OrNull<T>(s: seq<T>): Option<seq<T>> { if s == [] then None else Some(s) }

  function Assemble(hdr: seq<U32>, t: Parts): Request
    requires |hdr| == HEADER_WORDS && PartsFit(t)
  {
    Request(
      Signed(hdr[JUDGE_ID]), Signed(hdr[CONTEST_ID]), Signed(hdr[RUN_ID]), Signed(hdr[LANG_ID]),
      Signed(hdr[LOCALE_ID]), Signed(hdr[OUTPUT_ONLY]), Signed(hdr[STYLE_CHECK_ONLY]),
      Signed(hdr[TS1]), Signed(hdr[TS1_US]),
      Signed(hdr[USE_UUID]), [hdr[UUID], hdr[UUID + 1], hdr[UUID + 2], hdr[UUID + 3]],
      Join(hdr[MAX_VM_SIZE], hdr[MAX_VM_SIZE + 1]), Join(hdr[MAX_STACK_SIZE], hdr[MAX_STACK_SIZE + 1]),
      Join(hdr[MAX_FILE_SIZE], hdr[MAX_FILE_SIZE + 1]),
      OrNull(t.style), OrNull(t.src), |t.run|, t.run, |t.env|, |t.scEnv|, OrNull(t.env), OrNull(t.scEnv))
  }

  /** The request the reader makes of arbitrary bytes, or None when it refuses them. */
  function ReadSpec(p: seq<Byte>): Option<Request> {
    if |p| < HEADER_SIZE then None
    else
      var hdr := WordsOf(p[..HEADER_SIZE]);
      if !HeaderOk(hdr, |p|) then None
      else
        var t :- TakeParts(p, hdr);
        Some(Assemble(hdr, t))
  }
}
