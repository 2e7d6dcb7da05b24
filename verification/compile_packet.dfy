/** compile_packet_1.c and compile_packet_2.c: the cursor parser and the two-pass writer of compile
    requests, proved against their value-level description. */
module CompilePacket {
  import opened CTypes
  import opened PacketBytes
  import opened CompileRequest

  // ---------------------------------------------------------------- reading

  /** Copies len bytes and moves the cursor by the aligned length. Only the unaligned end is checked
      against end_ptr; the aligned one cannot pass it because cursor and packet size are aligned. */
  method CopyBlob(p: seq<Byte>, pinPtr: nat, len: nat) returns (ok: bool, s: seq<Byte>, next: nat)
    requires |p| % 16 == 0 && pinPtr % 16 == 0 && pinPtr <= |p|
    ensures TakeBlob(p, pinPtr, len) == if ok then Some((s, next)) else None
    ensures ok ==> next % 16 == 0 && next <= |p|
  {
    s, next := [], pinPtr;
    if pinPtr + len > |p| { return false, s, next; }
    if len > 0 {
      s := p[pinPtr..pinPtr + len];
      next := pinPtr + Align(len);
    }
    return true, s, next;
  }

  /** What was copied so far, in front of the outcome for the rest. */
  ghost function InFront(ss: seq<seq<Byte>>, r: Option<(seq<seq<Byte>>, nat)>): Option<(seq<seq<Byte>>, nat)> {
    if r.Some? then Some((ss + r.value.0, r.value.1)) else None
  }

  lemma NothingInFront(r: Option<(seq<seq<Byte>>, nat)>)
    ensures InFront([], r) == r
  {
    assert r.Some? ==> [] + r.value.0 == r.value.0;
  }

  lemma NothingBehind(ss: seq<seq<Byte>>, pos: nat)
    ensures InFront(ss, Some(([], pos))) == Some((ss, pos))
  {
    assert ss + [] == ss;
  }

  lemma TakeMore(ss: seq<seq<Byte>>, p: seq<Byte>, pos: nat, lens: seq<nat>)
    requires pos <= |p| && lens != []
    ensures InFront(ss, TakeStrings(p, pos, lens)) ==
            if pos + lens[0] > |p| then None
            else InFront(ss + [p[pos..pos + lens[0]]], TakeStrings(p, pos + lens[0], lens[1..]))
  {
    if pos + lens[0] <= |p| {
      var s, rest := p[pos..pos + lens[0]], TakeStrings(p, pos + lens[0], lens[1..]);
      assert rest.Some? ==> ss + ([s] + rest.value.0) == ss + [s] + rest.value.0;
    }
  }

  /** The strings, one after the other. */
  method CopyStrings(p: seq<Byte>, from: nat, strLens: array<nat>)
    returns (ok: bool, vars: seq<seq<Byte>>, pinPtr: nat)
    requires from <= |p|
    ensures TakeStrings(p, from, strLens[..]) == if ok then Some((vars, pinPtr)) else None
    ensures ok ==> pinPtr <= |p|
  {
    hide InFront;
    ghost var lens := strLens[..];
    ghost var want := TakeStrings(p, from, lens);
    vars, pinPtr := [], from;
    var i := 0;
    assert lens[0..] == lens && InFront([], want) == want by { NothingInFront(want); }
    while i < strLens.Length
      invariant 0 <= i <= strLens.Length && pinPtr <= |p|
      invariant want == InFront(vars, TakeStrings(p, pinPtr, lens[i..]))
    {
      assert lens[i..][1..] == lens[i + 1..] && lens[i..][0] == strLens[i];
      TakeMore(vars, p, pinPtr, lens[i..]);
      if pinPtr + strLens[i] > |p| { return false, [], pinPtr; }
      vars := vars + [p[pinPtr..pinPtr + strLens[i]]];
      pinPtr := pinPtr + strLens[i];
      i := i + 1;
    }
    NothingBehind(vars, pinPtr);
    return true, vars, pinPtr;
  }

  /** The array of lengths, the strings, and the alignment behind them. */
  method CopyEnv(p: seq<Byte>, pos: nat, num: nat) returns (ok: bool, vars: seq<seq<Byte>>, next: nat)
    requires |p| % 16 == 0 && pos % 16 == 0 && pos <= |p|
    ensures TakeEnv(p, pos, num) == if ok then Some((vars, next)) else None
    ensures ok ==> next % 16 == 0 && next <= |p|
  {
    hide TakeBlob, TakeStrings, WordsOf;
    vars, next := [], pos;
    var good, bytes, pinPtr := CopyBlob(p, pos, 4 * num);
    if !good { return false, vars, next; }
    var ws := WordsOf(bytes);
    var strLens := new nat[num](_ => 0);
    var i := 0;
    while i < num
      invariant 0 <= i <= num
      invariant forall k | 0 <= k < i ::
                  InRange(Signed(ws[k]), 0, EJ_MAX_COMPILE_ENV_LEN) && strLens[k] == Signed(ws[k])
    {
      if Signed(ws[i]) < 0 || Signed(ws[i]) > EJ_MAX_COMPILE_ENV_LEN { return false, vars, next; }
      strLens[i] := Signed(ws[i]);
      i := i + 1;
    }
    assert strLens[..] == AsLengths(ws);
    ok, vars, next := CopyStrings(p, pinPtr, strLens);
    if ok {
      AlignBound(next, |p|);
      next := Align(next);
    }
  }

  /** The checks of compile_request_packet_read up to the time stamp, in their order. */
  method CheckFixed(pin: seq<U32>, inSize: nat) returns (ok: bool)
    requires |pin| == HEADER_WORDS
    ensures ok == FixedOk(pin, inSize)
  {
    hide Signed;
    var pktSize := Signed(pin[PACKET_LEN]);
    if pktSize != inSize { return false; }
    if pktSize < 0 || pktSize > EJ_MAX_COMPILE_PACKET_SIZE { return false; }
    if pktSize % 16 != 0 { return false; }
    if Signed(pin[VERSION]) != EJ_COMPILE_PACKET_VERSION { return false; }
    var judgeId := Signed(pin[JUDGE_ID]);
    if judgeId < 0 || judgeId > EJ_MAX_JUDGE_ID { return false; }
    var contestId := Signed(pin[CONTEST_ID]);
    if contestId < 0 || contestId > EJ_MAX_CONTEST_ID { return false; }
    var runId := Signed(pin[RUN_ID]);
    if runId < 0 || runId > EJ_MAX_RUN_ID { return false; }
    var langId := Signed(pin[LANG_ID]);
    if contestId > 0 {
      if langId < 0 { return false; }
    }
    var localeId := Signed(pin[LOCALE_ID]);
    if localeId < 0 || localeId > EJ_MAX_LOCALE_ID { return false; }
    var outputOnly := Signed(pin[OUTPUT_ONLY]);
    if outputOnly < 0 || outputOnly > 1 { return false; }
    var styleCheckOnly := Signed(pin[STYLE_CHECK_ONLY]);
    if styleCheckOnly < 0 || styleCheckOnly > 1 { return false; }
    var ts1Us := Signed(pin[TS1_US]);
    if ts1Us < 0 || ts1Us > USEC_MAX { return false; }
    return true;
  }

  /** compile_request_packet_read */
  method RequestRead(inData: seq<Byte>) returns (pout: Option<Request>)
    ensures pout == ReadSpec(inData)
  {
    hide WordsOf, TakeBlob, TakeEnv, Signed, Join;
    if |inData| < HEADER_SIZE { return None; }
    var pin := WordsOf(inData[..HEADER_SIZE]);
    var fixedOk := CheckFixed(pin, |inData|);
    if !fixedOk { return None; }
    assert |inData| % 16 == 0;
    hide FixedOk;
    var pinPtr := HEADER_SIZE;
    var ok: bool;
    var styleCheckerLen := Signed(pin[STYLE_CHECKER_LEN]);
    if styleCheckerLen < 0 || styleCheckerLen > PATH_MAX { return None; }
    var styleChecker;
    ok, styleChecker, pinPtr := CopyBlob(inData, pinPtr, styleCheckerLen);
    if !ok { return None; }

    var srcSfxLen := Signed(pin[SRC_SFX_LEN]);
    if srcSfxLen < 0 || srcSfxLen > PATH_MAX { return None; }
    var srcSfx;
    ok, srcSfx, pinPtr := CopyBlob(inData, pinPtr, srcSfxLen);
    if !ok { return None; }

    var runBlockLen := Signed(pin[RUN_BLOCK_LEN]);
    if runBlockLen < 0 || runBlockLen > EJ_MAX_COMPILE_RUN_BLOCK_LEN { return None; }
    var runBlock;
    ok, runBlock, pinPtr := CopyBlob(inData, pinPtr, runBlockLen);
    if !ok { return None; }

    var envNum := Signed(pin[ENV_NUM]);
    if envNum < 0 || envNum > EJ_MAX_COMPILE_ENV_NUM { return None; }
    var envVars;
    ok, envVars, pinPtr := CopyEnv(inData, pinPtr, envNum);
    if !ok { return None; }

    var scEnvNum := Signed(pin[SC_ENV_NUM]);
    if scEnvNum < 0 || scEnvNum > EJ_MAX_COMPILE_ENV_NUM { return None; }
    assert HeaderOk(pin, |inData|);
    hide HeaderOk;
    var scEnvVars;
    ok, scEnvVars, pinPtr := CopyEnv(inData, pinPtr, scEnvNum);
    if !ok { return None; }
    if pinPtr != |inData| { return None; }

    return Some(Request(
      Signed(pin[JUDGE_ID]), Signed(pin[CONTEST_ID]), Signed(pin[RUN_ID]), Signed(pin[LANG_ID]),
      Signed(pin[LOCALE_ID]), Signed(pin[OUTPUT_ONLY]), Signed(pin[STYLE_CHECK_ONLY]),
      Signed(pin[TS1]), Signed(pin[TS1_US]),
      Signed(pin[USE_UUID]), [pin[UUID], pin[UUID + 1], pin[UUID + 2], pin[UUID + 3]],
      Join(pin[MAX_VM_SIZE], pin[MAX_VM_SIZE + 1]), Join(pin[MAX_STACK_SIZE], pin[MAX_STACK_SIZE + 1]),
      Join(pin[MAX_FILE_SIZE], pin[MAX_FILE_SIZE + 1]),
      if styleCheckerLen > 0 then Some(styleChecker) else None,
      if srcSfxLen > 0 then Some(srcSfx) else None,
      runBlockLen, runBlock, envNum, scEnvNum,
      if envNum > 0 then Some(envVars) else None,
      if scEnvNum > 0 then Some(scEnvVars) else None));
  }

  // ---------------------------------------------------------------- writing

  /** The buffer holds `content` up to the cursor and zeros (from calloc) behind it. */
  ghost predicate Filled(buf: array<Byte>, outPtr: nat, content: seq<Byte>)
    reads buf
  {
    outPtr <= buf.Length && buf[..outPtr] == content && ZeroAt(buf[..], outPtr, buf.Length)
  }

  /** memcpy to the cursor */
  method Copy(buf: array<Byte>, outPtr: nat, s: seq<Byte>, ghost content: seq<Byte>) returns (next: nat)
    requires Filled(buf, outPtr, content) && outPtr + |s| <= buf.Length
    modifies buf
    ensures next == outPtr + |s| && Filled(buf, next, content + s)
  {
    next := outPtr + |s|;
    forall k | 0 <= k < |s| { buf[outPtr + k] := s[k]; }
    assert buf[..next] == buf[..outPtr] + buf[outPtr..next];
  }

  /** pkt_bin_align_addr: the bytes skipped are zero already. */
  method AlignAddr(buf: array<Byte>, outPtr: nat, ghost content: seq<Byte>) returns (next: nat)
    requires Filled(buf, outPtr, content) && Align(outPtr) <= buf.Length
    ensures next == Align(outPtr) && Filled(buf, next, content + Fill<Byte>(next - outPtr, 0))
  {
    next := Align(outPtr);
    assert buf[..next] == buf[..outPtr] + buf[outPtr..next];
    assert buf[outPtr..next] == Fill<Byte>(next - outPtr, 0) by {
      forall k | 0 <= k < next - outPtr ensures buf[outPtr..next][k] == 0 { assert buf[..][outPtr + k] == 0; }
    }
  }

  /** A blob and the alignment behind it. */
  method PutBlob(buf: array<Byte>, outPtr: nat, s: seq<Byte>, ghost content: seq<Byte>) returns (next: nat)
    requires Filled(buf, outPtr, content) && outPtr % 16 == 0 && outPtr + |Padded(s)| <= buf.Length
    modifies buf
    ensures next == outPtr + |Padded(s)| && next % 16 == 0 && Filled(buf, next, content + Padded(s))
  {
    hide Filled, Fill;
    AlignSum(outPtr, |s|);
    next := Copy(buf, outPtr, s, content);
    next := AlignAddr(buf, next, content + s);
    assert content + s + Fill<Byte>(Align(|s|) - |s|, 0) == content + Padded(s);
  }

  /** The strings, packed one after the other. */
  method PutStrings(buf: array<Byte>, outPtr: nat, vars: seq<seq<Byte>>, ghost content: seq<Byte>)
    returns (next: nat)
    requires Filled(buf, outPtr, content) && outPtr + |Concat(vars)| <= buf.Length
    modifies buf
    ensures next == outPtr + |Concat(vars)| && Filled(buf, next, content + Concat(vars))
  {
    hide Filled;
    next := outPtr;
    ghost var now := content;
    assert vars[0..] == vars;
    for i := 0 to |vars|
      invariant Filled(buf, next, now)
      invariant next + |Concat(vars[i..])| == outPtr + |Concat(vars)|
      invariant now + Concat(vars[i..]) == content + Concat(vars)
    {
      assert vars[i..][1..] == vars[i + 1..];
      assert now + vars[i] + Concat(vars[i + 1..]) == now + (vars[i] + Concat(vars[i + 1..]));
      next := Copy(buf, next, vars[i], now);
      now := now + vars[i];
    }
    assert now == now + Concat(vars[|vars|..]);
  }

  /** The three writes of an environment make up its block. */
  lemma EnvContent(content: seq<Byte>, vars: seq<seq<Byte>>, outPtr: nat)
    requires EnvFits(vars) && vars != [] && outPtr % 16 == 0
    ensures var lens := Padded(Words(LengthWords(vars)));
            var end := outPtr + |lens| + |Concat(vars)|;
            && Align(end) == outPtr + |EnvBlock(vars)|
            && content + EnvBlock(vars) == content + lens + Concat(vars) + Fill<Byte>(Align(end) - end, 0)
  {
    hide Padded, EnvBlock, Concat, Align, Fill, Words, LengthWords, EnvFits;
    var lens, strings := Padded(Words(LengthWords(vars))), Concat(vars);
    var n := |lens| + |strings|;
    AlignSum(outPtr, n);
    EnvBlockIs(vars);
    PaddedIs(lens + strings);
    Assoc(content, lens + strings, Fill<Byte>(Align(n) - n, 0));
    Assoc(content, lens, strings);
  }

  lemma EnvBlockIs(vars: seq<seq<Byte>>)
    requires EnvFits(vars) && vars != []
    ensures EnvBlock(vars) == Padded(Padded(Words(LengthWords(vars))) + Concat(vars))
  {
    hide Padded, Words, LengthWords, Concat;
  }

  lemma PaddedIs(s: seq<Byte>)
    ensures Padded(s) == s + Fill<Byte>(Align(|s|) - |s|, 0)
  {
    hide Fill, Align;
  }

  /** `if (env_num) { ... }` of the filling pass. */
  method PutEnv(buf: array<Byte>, outPtr: nat, vars: seq<seq<Byte>>, ghost content: seq<Byte>)
    returns (next: nat)
    requires EnvFits(vars)
    requires Filled(buf, outPtr, content) && outPtr % 16 == 0 && outPtr + |EnvBlock(vars)| <= buf.Length
    modifies buf
    ensures next == outPtr + |EnvBlock(vars)| && next % 16 == 0 && Filled(buf, next, content + EnvBlock(vars))
  {
    next := outPtr;
    if |vars| != 0 {
      hide Filled, Fill, Words, LengthWords, Concat, EnvFits, EnvBlock, Align, Padded;
      EnvContent(content, vars, outPtr);
      var strLensOut := Words(LengthWords(vars));
      next := PutBlob(buf, outPtr, strLensOut, content);
      ghost var now := content + Padded(strLensOut);
      next := PutStrings(buf, next, vars, now);
      next := AlignAddr(buf, next, now + Concat(vars));
    } else {
      hide Filled;
      assert content + EnvBlock(vars) == content;
    }
  }

  /** The number of variables; -1 asks for counting them up to the null pointer. */
  method CountEnv(num: CInt, vars: Option<seq<seq<Byte>>>) returns (envNum: int)
    ensures envNum == EnvCount(num, vars)
    ensures envNum == if num != -1 then num else if vars.Some? then |vars.value| else 0
  {
    envNum := num;
    if envNum == -1 {
      envNum := 0;
      if vars.Some? {
        var i := 0;
        while i < |vars.value|
          invariant 0 <= i <= |vars.value|
        {
          i := i + 1;
        }
        envNum := i;
      }
    }
  }

  /** strlen of every variable, with the checks of the writer. */
  method MeasureEnv(num: CInt, vars: Option<seq<seq<Byte>>>) returns (ok: bool, cut: seq<seq<Byte>>)
    requires num > 0 ==> vars.Some? && num <= |vars.value|
    ensures ok <==> num >= -1 && EnvFits(EnvOf(num, vars))
    ensures ok ==> cut == EnvOf(num, vars)
  {
    hide CStr;
    var envNum := CountEnv(num, vars);
    if envNum < 0 || envNum > EJ_MAX_COMPILE_ENV_NUM { return false, []; }
    cut := [];
    ghost var all := EnvOf(num, vars);
    for i := 0 to envNum
      invariant cut == all[..i]
      invariant forall k | 0 <= k < i :: |all[k]| <= EJ_MAX_COMPILE_ENV_LEN
    {
      var s := CStr<Byte>(vars.value[i], 0);
      assert s == all[i];
      if |s| > EJ_MAX_COMPILE_ENV_LEN { return false, []; }
      cut := cut + [s];
    }
    return true, cut;
  }

  /** The sizing loop: out_size += str_lens[i] */
  method AddLengths(outSize0: CInt, vars: seq<seq<Byte>>) returns (outSize: CInt)
    requires outSize0 >= 0 && outSize0 + |Concat(vars)| <= INT_MAX
    ensures outSize == outSize0 + |Concat(vars)|
  {
    outSize := outSize0;
    assert vars[0..] == vars;
    for i := 0 to |vars|
      invariant outSize >= 0 && outSize + |Concat(vars[i..])| == outSize0 + |Concat(vars)|
    {
      assert vars[i..][1..] == vars[i + 1..];
      outSize := outSize + |vars[i]|;
    }
  }

  lemma EnvBlockLength(vars: seq<seq<Byte>>)
    requires EnvFits(vars)
    ensures |EnvBlock(vars)| == Align(Align(4 * |vars|) + |Concat(vars)|)
  {
    hide Words, LengthWords, Padded, Align;
    if vars == [] {
      AlignZero();
    } else {
      hide Concat;
      var lens := Words(LengthWords(vars));
      assert |Padded(lens)| == Align(4 * |vars|);
    }
  }

  lemma EnvBlockSize(vars: seq<seq<Byte>>, base: nat)
    requires EnvFits(vars) && base % 16 == 0
    ensures base + |EnvBlock(vars)| == Align(base + Align(4 * |vars|) + |Concat(vars)|)
  {
    hide EnvBlock, Concat, Align, EnvFits;
    EnvBlockLength(vars);
    AlignSum(base, Align(4 * |vars|) + |Concat(vars)|);
    assert base + Align(4 * |vars|) + |Concat(vars)| == base + (Align(4 * |vars|) + |Concat(vars)|);
  }

  lemma BodySize(t: Parts)
    requires PartsFit(t)
    ensures |Body(t)| == Align(|t.style|) + Align(|t.src|) + Align(|t.run|) + |EnvBlock(t.env)| + |EnvBlock(t.scEnv)|
  {
    hide EnvBlock, Fill;
  }

  /** The sizing pass. */
  method CountSize(t: Parts) returns (outSize: CInt)
    requires PartsFit(t) && HEADER_SIZE + |Body(t)| + 15 <= INT_MAX
    ensures outSize == HEADER_SIZE + |Body(t)|
  {
    hide Body, EnvBlock, Align;
    BodySize(t);
    outSize := HEADER_SIZE;
    if |t.style| > 0 { outSize := outSize + Align(|t.style|); }
    if |t.src| > 0 { outSize := outSize + Align(|t.src|); }
    outSize := outSize + Align(|t.run|);
    Mod16Sum(HEADER_SIZE, Align(|t.style|));
    Mod16Sum(HEADER_SIZE + Align(|t.style|), Align(|t.src|));
    Mod16Sum(HEADER_SIZE + Align(|t.style|) + Align(|t.src|), Align(|t.run|));
    Mod16Sum(outSize, |EnvBlock(t.env)|);
    outSize := CountEnvSize(outSize, t.env);
    outSize := CountEnvSize(outSize, t.scEnv);
  }

  /** The sizing of one environment. */
  method CountEnvSize(outSize0: CInt, vars: seq<seq<Byte>>) returns (outSize: CInt)
    requires outSize0 >= 0 && outSize0 % 16 == 0 && EnvFits(vars)
    requires outSize0 + |EnvBlock(vars)| + 15 <= INT_MAX
    ensures outSize == outSize0 + |EnvBlock(vars)|
  {
    hide EnvBlock, Concat, Align;
    EnvBlockSize(vars, outSize0);
    outSize := outSize0 + Align(4 * |vars|);
    outSize := AddLengths(outSize, vars);
    outSize := Align(outSize);
  }

  /** The filling pass behind the header; its cursor ends where the sizing pass said. */
  method PutBody(buf: array<Byte>, t: Parts, ghost header: seq<Byte>)
    requires PartsFit(t) && Filled(buf, HEADER_SIZE, header) && buf.Length == HEADER_SIZE + |Body(t)|
    modifies buf
    ensures buf[..] == header + Body(t)
  {
    hide Filled, EnvBlock, Padded;
    ghost var now := header;
    var outPtr := HEADER_SIZE;
    if |t.style| > 0 {
      outPtr := PutBlob(buf, outPtr, t.style, now);
    } else { EmptyPadded(t.style, now); }
    now := now + Padded(t.style);
    if |t.src| > 0 {
      outPtr := PutBlob(buf, outPtr, t.src, now);
    } else { EmptyPadded(t.src, now); }
    now := now + Padded(t.src);
    if |t.run| != 0 {
      outPtr := PutBlob(buf, outPtr, t.run, now);
    } else { EmptyPadded(t.run, now); }
    now := now + Padded(t.run);
    outPtr := PutEnv(buf, outPtr, t.env, now);
    now := now + EnvBlock(t.env);
    outPtr := PutEnv(buf, outPtr, t.scEnv, now);
    now := now + EnvBlock(t.scEnv);
    assert now == header + Body(t) by { BodyInOrder(header, t); }
    assert buf[..] == now by { FilledUp(buf, outPtr, now); }
  }

  lemma EmptyPadded(s: seq<Byte>, content: seq<Byte>)
    requires |s| == 0
    ensures |Padded(s)| == 0 && content + Padded(s) == content
  {
  }

  lemma BodyInOrder(h: seq<Byte>, t: Parts)
    requires PartsFit(t)
    ensures h + Padded(t.style) + Padded(t.src) + Padded(t.run) + EnvBlock(t.env) + EnvBlock(t.scEnv) == h + Body(t)
  {
    hide Padded, EnvBlock;
    var (a, b, c, d, e) := (Padded(t.style), Padded(t.src), Padded(t.run), EnvBlock(t.env), EnvBlock(t.scEnv));
    Assoc4(h + a, b, c, d + e);
    Assoc4(h + a + b, c, d, e);
    assert h + a + (b + (c + (d + e))) == h + (a + (b + (c + (d + e))));
  }

  lemma FilledUp(buf: array<Byte>, outPtr: nat, content: seq<Byte>)
    requires Filled(buf, outPtr, content) && outPtr == buf.Length
    ensures buf[..] == content
  {
    assert buf[..] == buf[..outPtr];
  }

  /** compile_request_packet_write; null stands for its error return. Sizes past an int are excluded:
      there the C arithmetic is undefined. */
  method RequestWrite(inData: Request) returns (outData: array?<Byte>)
    requires Readable(inData)
    requires FieldsOk(inData) ==> HEADER_SIZE + |Body(PartsOf(inData))| + 15 <= INT_MAX
    ensures outData == null <==> WriteSpec(inData) == None
    ensures outData != null ==> fresh(outData) && WriteSpec(inData) == Some(outData[..])
  {
    hide EnvOf, CStr, Body, Words, HeaderWord, EnvFits;
    outData := null;
    var styleChecker, srcSfx := StringOf(inData.styleChecker), StringOf(inData.srcSfx);
    if inData.judgeId < 0 || inData.judgeId > EJ_MAX_JUDGE_ID { return; }
    if inData.contestId < 0 || inData.contestId > EJ_MAX_CONTEST_ID { return; }
    if inData.runId < 0 || inData.runId > EJ_MAX_RUN_ID { return; }
    if inData.langId < 0 || inData.langId > EJ_MAX_LANG_ID { return; }
    if inData.localeId < 0 || inData.localeId > EJ_MAX_LOCALE_ID { return; }
    if inData.outputOnly < 0 || inData.outputOnly > 1 { return; }
    if inData.styleCheckOnly < 0 || inData.styleCheckOnly > 1 { return; }
    if inData.ts1Us < 0 || inData.ts1Us > USEC_MAX { return; }
    if |styleChecker| > PATH_MAX { return; }
    if |srcSfx| > PATH_MAX { return; }
    if inData.runBlockLen < 0 || inData.runBlockLen > EJ_MAX_COMPILE_RUN_BLOCK_LEN { return; }
    var ok, env := MeasureEnv(inData.envNum, inData.envVars);
    if !ok { return; }
    var scEnv;
    ok, scEnv := MeasureEnv(inData.scEnvNum, inData.scEnvVars);
    if !ok { return; }
    var t := Parts(styleChecker, srcSfx, inData.runBlock[..inData.runBlockLen], env, scEnv);
    assert t == PartsOf(inData) && FieldsOk(inData);
    var outSize := CountSize(t);
    if outSize < HEADER_SIZE || outSize > EJ_MAX_COMPILE_PACKET_SIZE { return; }
    hide FieldsOk, PartsOf;

    var buf := new Byte[outSize](_ => 0);
    var hdr := StoreHeader(inData, t, outSize);
    var outPtr := Copy(buf, 0, Words(hdr), []);
    PutBody(buf, t, Words(hdr));
    outData := buf;
  }

  /** The assignments to the fields of struct compile_request_bin_packet, on a zeroed header. */
  method StoreHeader(r: Request, t: Parts, size: CInt) returns (hdr: seq<U32>)
    requires |r.uuid| == 4 && PartsFit(t)
    ensures hdr == HeaderOf(r, t, size)
  {
    hdr := seq(HEADER_WORDS, _ => 0);
    hdr := hdr[PACKET_LEN := Unsigned(size)];
    hdr := hdr[VERSION := Unsigned(EJ_COMPILE_PACKET_VERSION)];
    hdr := hdr[JUDGE_ID := Unsigned(r.judgeId)];
    hdr := hdr[CONTEST_ID := Unsigned(r.contestId)];
    hdr := hdr[RUN_ID := Unsigned(r.runId)];
    hdr := hdr[LANG_ID := Unsigned(r.langId)];
    hdr := hdr[LOCALE_ID := Unsigned(r.localeId)];
    hdr := hdr[OUTPUT_ONLY := Unsigned(r.outputOnly)];
    hdr := hdr[STYLE_CHECK_ONLY := Unsigned(r.styleCheckOnly)];
    hdr := hdr[TS1 := Unsigned(r.ts1)];
    hdr := hdr[TS1_US := Unsigned(r.ts1Us)];
    hdr := hdr[MAX_VM_SIZE := Low(r.maxVmSize)][MAX_VM_SIZE + 1 := High(r.maxVmSize)];
    hdr := hdr[MAX_STACK_SIZE := Low(r.maxStackSize)][MAX_STACK_SIZE + 1 := High(r.maxStackSize)];
    hdr := hdr[MAX_FILE_SIZE := Low(r.maxFileSize)][MAX_FILE_SIZE + 1 := High(r.maxFileSize)];
    hdr := hdr[USE_UUID := Unsigned(r.useUuid)];
    hdr := hdr[UUID := r.uuid[0]][UUID + 1 := r.uuid[1]][UUID + 2 := r.uuid[2]][UUID + 3 := r.uuid[3]];
    hdr := hdr[STYLE_CHECKER_LEN := Unsigned(|t.style|)];
    hdr := hdr[SRC_SFX_LEN := Unsigned(|t.src|)];
    hdr := hdr[RUN_BLOCK_LEN := Unsigned(|t.run|)];
    hdr := hdr[ENV_NUM := Unsigned(|t.env|)];
    hdr := hdr[SC_ENV_NUM := Unsigned(|t.scEnv|)];
  }
}
