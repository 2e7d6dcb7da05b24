/** What a compile request and its packet say to each other, field by field and byte by byte. */
module CompileRequestFields {
  import opened CTypes
  import opened PacketBytes
  import opened CompileRequest
  import opened CompileRequestLaws

  // ---------------------------------------------------------------- the fields that come back

  /** A string that was written comes back cut at its first NUL; one without characters does not come back. */
  predicate SameString(written: Option<seq<Byte>>, got: Option<seq<Byte>>) {
    match got
    case None => written.None? || written.value == [] || written.value[0] == 0
    case Some(t) => t != [] && written.Some? && CutAtNul(written.value, t)
  }

  /** -1 stands for the number of variables, 0 for a null list. */
  predicate SameCount(num: CInt, vars: Option<seq<seq<Byte>>>, got: CInt) {
    got == if num != -1 then num else if vars.Some? then |vars.value| else 0
  }

  predicate SameVars(vars: Option<seq<seq<Byte>>>, num: CInt, got: Option<seq<seq<Byte>>>) {
    match got
    case None => num <= 0
    case Some(ss) => num > 0 && |ss| == num && vars.Some? && num <= |vars.value| &&
                     forall k | 0 <= k < num :: CutAtNul(vars.value[k], ss[k])
  }

  predicate SameIds(r: Request, q: Request) {
    && q.judgeId == r.judgeId && q.contestId == r.contestId && q.runId == r.runId && q.langId == r.langId
    && q.localeId == r.localeId && q.outputOnly == r.outputOnly && q.styleCheckOnly == r.styleCheckOnly
    && q.ts1 == r.ts1 && q.ts1Us == r.ts1Us && q.useUuid == r.useUuid && q.uuid == r.uuid
    && q.maxVmSize == r.maxVmSize && q.maxStackSize == r.maxStackSize && q.maxFileSize == r.maxFileSize
  }

  lemma StringCut(s: Option<seq<Byte>>)
    ensures SameString(s, OrNull(StringOf(s)))
  {
    if s.Some? { CutIs(s.value); }
  }

  lemma VarsCut(num: CInt, vars: Option<seq<seq<Byte>>>, n: CInt)
    requires (num > 0 ==> vars.Some? && num <= |vars.value|) && num >= -1
    requires n == |EnvOf(num, vars)|
    ensures SameCount(num, vars, n) && SameVars(vars, n, OrNull(EnvOf(num, vars)))
  {
    var ss := EnvOf(num, vars);
    forall k | 0 <= k < n ensures CutAtNul(vars.value[k], ss[k]) { CutIs(vars.value[k]); }
    hide CStr;
  }

  /** Everything in a request that the writer accepts comes back on the other side. */
  lemma FieldsComeBack(r: Request)
    requires Readable(r) && WriteSpec(r).Some?
    ensures ReadSpec(WriteSpec(r).value).Some?
    ensures var q := ReadSpec(WriteSpec(r).value).value;
            && SameIds(r, q)
            && SameString(r.styleChecker, q.styleChecker) && SameString(r.srcSfx, q.srcSfx)
            && q.runBlockLen == r.runBlockLen >= 0 && q.runBlock == r.runBlock[..r.runBlockLen]
            && SameCount(r.envNum, r.envVars, q.envNum) && SameVars(r.envVars, q.envNum, q.envVars)
            && SameCount(r.scEnvNum, r.scEnvVars, q.scEnvNum) && SameVars(r.scEnvVars, q.scEnvNum, q.scEnvVars)
  {
    RequestRoundTrip(r);
    hide ReadSpec, WriteSpec;
    AcceptedFields(r);
    StringCut(r.styleChecker);
    StringCut(r.srcSfx);
    VarsCut(r.envNum, r.envVars, |EnvOf(r.envNum, r.envVars)|);
    VarsCut(r.scEnvNum, r.scEnvVars, |EnvOf(r.scEnvNum, r.scEnvVars)|);
    hide EnvOf, StringOf, SameString, SameVars, SameCount;
  }

  lemma AcceptedFields(r: Request)
    requires Readable(r) && WriteSpec(r).Some?
    ensures FieldsOk(r) && 0 <= r.runBlockLen && r.envNum >= -1 && r.scEnvNum >= -1
    ensures |EnvOf(r.envNum, r.envVars)| <= 65536 && |EnvOf(r.scEnvNum, r.scEnvVars)| <= 65536
  {
    hide EnvOf, StringOf, Body, Words;
  }

  /** Which requests the writer accepts, apart from the size of the packet. */
  lemma WriterAccepts(r: Request)
    requires Readable(r)
    ensures WriteSpec(r).Some? ==> |WriteSpec(r).value| <= 65536
    ensures WriteSpec(r).Some? <==>
              && 0 <= r.judgeId <= 65535 && 0 <= r.contestId <= 999999 && 0 <= r.runId <= 999999
              && 0 <= r.langId <= 999999 && 0 <= r.localeId <= 127
              && 0 <= r.outputOnly <= 1 && 0 <= r.styleCheckOnly <= 1 && 0 <= r.ts1Us <= 999999
              && |StringOf(r.styleChecker)| <= 4096 && |StringOf(r.srcSfx)| <= 4096
              && 0 <= r.runBlockLen <= 65536 && r.envNum >= -1 && r.scEnvNum >= -1
              && VarsFit(EnvOf(r.envNum, r.envVars)) && VarsFit(EnvOf(r.scEnvNum, r.scEnvVars))
              && 112 + |Body(PartsOf(r))| <= 65536
  {
    hide EnvOf, StringOf, Body, Words;
  }

  predicate VarsFit(ss: seq<seq<Byte>>) { |ss| <= 65536 && forall k | 0 <= k < |ss| :: |ss[k]| <= 65535 }

  // ---------------------------------------------------------------- the layout of the packet

  /** The fixed header of a packet that holds q: struct compile_request_bin_packet. */
  predicate HeaderSays(p: seq<Byte>, q: Request)
    requires |p| >= 112
  {
    && IntAt(p, 0) == |p| && IntAt(p, 4) == 5
    && IntAt(p, 8) == q.judgeId && IntAt(p, 12) == q.contestId && IntAt(p, 16) == q.runId && IntAt(p, 20) == q.langId
    && IntAt(p, 24) == q.localeId && IntAt(p, 28) == q.outputOnly
    && LongAt(p, 32) == q.maxVmSize && LongAt(p, 40) == q.maxStackSize && LongAt(p, 48) == q.maxFileSize
    && IntAt(p, 56) == q.styleCheckOnly && IntAt(p, 60) == q.ts1 && IntAt(p, 64) == q.ts1Us
    && IntAt(p, 76) == q.runBlockLen && IntAt(p, 80) == q.envNum && IntAt(p, 84) == q.scEnvNum
    && IntAt(p, 88) == q.useUuid && q.uuid == [WordAt(p, 92), WordAt(p, 96), WordAt(p, 100), WordAt(p, 104)]
  }

  /** n bytes at position a, null for none. */
  predicate StringAt(p: seq<Byte>, a: nat, n: int, s: Option<seq<Byte>>) {
    0 <= n && a + n <= |p| && if n == 0 then s == None else s == Some(p[a..a + n])
  }

  /** The strings of the packet stand behind the header, each at the next multiple of 16. */
  predicate StringsSay(p: seq<Byte>, q: Request)
    requires |p| >= 112 && IntAt(p, 68) >= 0 && IntAt(p, 72) >= 0
  {
    var a := 112;
    var b := a + Up16(IntAt(p, 68));
    var c := b + Up16(IntAt(p, 72));
    && StringAt(p, a, IntAt(p, 68), q.styleChecker)
    && StringAt(p, b, IntAt(p, 72), q.srcSfx)
    && q.runBlockLen >= 0 && c + q.runBlockLen <= |p| && q.runBlock == p[c..c + q.runBlockLen]
  }

  lemma SameWord(p: seq<Byte>, k: nat)
    requires k < 28 && |p| >= 112
    ensures WordsOf(p[..112])[k] == WordAt(p, 4 * k) && Signed(WordsOf(p[..112])[k]) == IntAt(p, 4 * k)
  {
  }

  lemma SameWords(p: seq<Byte>)
    requires |p| >= 112
    ensures forall k: nat | k < 28 ::
              WordsOf(p[..112])[k] == WordAt(p, 4 * k) && Signed(WordsOf(p[..112])[k]) == IntAt(p, 4 * k)
  {
    forall k: nat | k < 28
      ensures WordsOf(p[..112])[k] == WordAt(p, 4 * k) && Signed(WordsOf(p[..112])[k]) == IntAt(p, 4 * k)
    {
      SameWord(p, k);
    }
  }

  lemma SameLong(p: seq<Byte>, k: nat)
    requires k < 27 && |p| >= 112
    ensures Join(WordsOf(p[..112])[k], WordsOf(p[..112])[k + 1]) == LongAt(p, 4 * k)
  {
    SameWord(p, k);
    SameWord(p, k + 1);
    hide WordsOf, WordAt, Signed, IntAt;
    assert 4 * (k + 1) == 4 * k + 4;
  }

  /** Every packet that is read says what the request says, field by field at its place. */
  lemma HeaderMeans(p: seq<Byte>)
    requires ReadSpec(p).Some?
    ensures |p| >= 112 && HeaderSays(p, ReadSpec(p).value)
  {
    hide TakeParts, WordsOf, Signed, Join, WordAt, IntAt, LongAt;
    SameWords(p);
    SameLong(p, 8);
    SameLong(p, 10);
    SameLong(p, 12);
  }

  /** Which packets are read: the ranges of the fields, and parts that take up the rest of the packet exactly. A
      language may have any number up, and for contest 0 any number at all. */
  lemma ReaderAccepts(p: seq<Byte>)
    requires |p| >= 112
    ensures ReadSpec(p).Some? <==> HeaderOk(WordsOf(p[..112]), |p|) && TakeParts(p, WordsOf(p[..112])).Some?
    ensures HeaderOk(WordsOf(p[..112]), |p|) <==>
              && IntAt(p, 0) == |p| && |p| <= 65536 && |p| % 16 == 0 && IntAt(p, 4) == 5
              && 0 <= IntAt(p, 8) <= 65535 && 0 <= IntAt(p, 12) <= 999999 && 0 <= IntAt(p, 16) <= 999999
              && (IntAt(p, 12) > 0 ==> IntAt(p, 20) >= 0) && 0 <= IntAt(p, 24) <= 127
              && 0 <= IntAt(p, 28) <= 1 && 0 <= IntAt(p, 56) <= 1 && 0 <= IntAt(p, 64) <= 999999
              && 0 <= IntAt(p, 68) <= 4096 && 0 <= IntAt(p, 72) <= 4096 && 0 <= IntAt(p, 76) <= 65536
              && 0 <= IntAt(p, 80) <= 65536 && 0 <= IntAt(p, 84) <= 65536
  {
    hide TakeParts, WordsOf, Signed, IntAt;
    SameWords(p);
  }

  lemma BlobAt(p: seq<Byte>, pos: nat, len: nat)
    requires |p| % 16 == 0 && pos % 16 == 0 && pos <= |p| && TakeBlob(p, pos, len).Some?
    ensures var (s, next) := TakeBlob(p, pos, len).value;
            pos + len <= |p| && s == p[pos..pos + len] && next == pos + Up16(len)
  {
  }

  lemma StringsTaken(p: seq<Byte>, hdr: seq<U32>, n1: nat, n2: nat, n3: nat)
    requires |hdr| == HEADER_WORDS && |p| >= HEADER_SIZE && HeaderOk(hdr, |p|) && TakeParts(p, hdr).Some?
    requires n1 == Signed(hdr[STYLE_CHECKER_LEN]) && n2 == Signed(hdr[SRC_SFX_LEN]) && n3 == Signed(hdr[RUN_BLOCK_LEN])
    ensures var t, b := TakeParts(p, hdr).value, 112 + Up16(n1); var c := b + Up16(n2);
            && 112 + n1 <= |p| && t.style == p[112..112 + n1]
            && b + n2 <= |p| && t.src == p[b..b + n2]
            && c + n3 <= |p| && t.run == p[c..c + n3]
  {
    hide TakeBlob, TakeEnv, Signed, Up16;
    BlobAt(p, 112, n1);
    BlobAt(p, 112 + Up16(n1), n2);
    BlobAt(p, 112 + Up16(n1) + Up16(n2), n3);
  }

  lemma StringsMean(p: seq<Byte>)
    requires ReadSpec(p).Some?
    ensures |p| >= 112 && IntAt(p, 68) >= 0 && IntAt(p, 72) >= 0 && StringsSay(p, ReadSpec(p).value)
  {
    hide TakeParts, WordsOf, Signed, Join, IntAt, Up16;
    SameWords(p);
    var hdr := WordsOf(p[..112]);
    StringsTaken(p, hdr, Signed(hdr[STYLE_CHECKER_LEN]), Signed(hdr[SRC_SFX_LEN]), Signed(hdr[RUN_BLOCK_LEN]));
  }

  // ---------------------------------------------------------------- environments

  /** The strings ss one after the other, from position a on. */
  predicate PackedAt(p: seq<Byte>, a: nat, ss: seq<seq<Byte>>)
    decreases |ss|
  {
    ss == [] || (a + |ss[0]| <= |p| && p[a..a + |ss[0]|] == ss[0] && PackedAt(p, a + |ss[0]|, ss[1..]))
  }

  /** The lengths of the strings as words from position a on, the strings at the next multiple of 16. */
  predicate EnvAt(p: seq<Byte>, a: nat, ss: seq<seq<Byte>>)
  {
    && a + Up16(4 * |ss|) <= |p|
    && (forall k | 0 <= k < |ss| :: IntAt(p, a + 4 * k) == |ss[k]|)
    && PackedAt(p, a + Up16(4 * |ss|), ss)
  }

  lemma {:induction false} StringsArePacked(p: seq<Byte>, pos: nat, lens: seq<nat>)
    requires pos <= |p| && TakeStrings(p, pos, lens).Some?
    ensures PackedAt(p, pos, TakeStrings(p, pos, lens).value.0)
    decreases |lens|
  {
    if lens == [] {
    } else {
      StringsArePacked(p, pos + lens[0], lens[1..]);
    }
  }

  lemma WordInside(p: seq<Byte>, a: nat, n: nat, k: nat)
    requires a + 4 * n <= |p| && k < n
    ensures Signed(WordsOf(p[a..a + 4 * n])[k]) == IntAt(p, a + 4 * k)
  {
  }

  lemma EnvMeans(p: seq<Byte>, pos: nat, num: nat)
    requires |p| % 16 == 0 && pos % 16 == 0 && pos <= |p| && TakeEnv(p, pos, num).Some?
    ensures EnvAt(p, pos, TakeEnv(p, pos, num).value.0)
  {
    hide TakeBlob, TakeStrings, Signed, WordsOf, IntAt, Up16, PackedAt;
    BlobAt(p, pos, 4 * num);
    var (bytes, from) := TakeBlob(p, pos, 4 * num).value;
    var lens := AsLengths(WordsOf(bytes));
    StringsArePacked(p, from, lens);
    forall k | 0 <= k < num ensures IntAt(p, pos + 4 * k) == |TakeEnv(p, pos, num).value.0[k]| {
      WordInside(p, pos, num, k);
    }
  }

  function Vars(vars: Option<seq<seq<Byte>>>): seq<seq<Byte>> { if vars.None? then [] else vars.value }

  /** The environment of the compiler follows the run block, that of the style checker stands behind it. */
  lemma EnvsMean(p: seq<Byte>)
    requires ReadSpec(p).Some?
    ensures |p| >= 112 && IntAt(p, 68) >= 0 && IntAt(p, 72) >= 0
    ensures var q := ReadSpec(p).value;
            var a := 112 + Up16(IntAt(p, 68)) + Up16(IntAt(p, 72)) + Up16(|q.runBlock|);
            && |Vars(q.envVars)| == q.envNum && |Vars(q.scEnvVars)| == q.scEnvNum
            && EnvAt(p, a, Vars(q.envVars))
            && exists b: nat :: a <= b <= |p| && EnvAt(p, b, Vars(q.scEnvVars))
  {
    hide TakeEnv, TakeParts, WordsOf, Signed, Join, IntAt, EnvAt, Up16;
    SameWords(p);
    var hdr := WordsOf(p[..112]);
    var n1, n2, n3 := Signed(hdr[STYLE_CHECKER_LEN]), Signed(hdr[SRC_SFX_LEN]), Signed(hdr[RUN_BLOCK_LEN]);
    var d := EnvsTaken(p, hdr, n1, n2, n3);
  }

  lemma EnvsTaken(p: seq<Byte>, hdr: seq<U32>, n1: nat, n2: nat, n3: nat) returns (d: nat)
    requires |hdr| == HEADER_WORDS && |p| >= HEADER_SIZE && HeaderOk(hdr, |p|) && TakeParts(p, hdr).Some?
    requires n1 == Signed(hdr[STYLE_CHECKER_LEN]) && n2 == Signed(hdr[SRC_SFX_LEN]) && n3 == Signed(hdr[RUN_BLOCK_LEN])
    ensures var t, c := TakeParts(p, hdr).value, 112 + Up16(n1) + Up16(n2) + Up16(n3);
            && EnvAt(p, c, t.env) && c <= d <= |p| && EnvAt(p, d, t.scEnv)
  {
    hide TakeBlob, TakeEnv, Signed, Up16, EnvAt;
    BlobAt(p, 112, n1);
    BlobAt(p, 112 + Up16(n1), n2);
    BlobAt(p, 112 + Up16(n1) + Up16(n2), n3);
    var c := 112 + Up16(n1) + Up16(n2) + Up16(n3);
    var n4, n5 := Signed(hdr[ENV_NUM]), Signed(hdr[SC_ENV_NUM]);
    EnvMeans(p, c, n4);
    d := TakeEnv(p, c, n4).value.1;
    EnvMeans(p, d, n5);
  }
}
