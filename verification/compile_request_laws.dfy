/** What writing and reading compile requests promise together. */
module CompileRequestLaws {
  import opened CTypes
  import opened PacketBytes
  import opened CompileRequest

  // ---------------------------------------------------------------- reading what was written

  lemma BlobTaken(p: seq<Byte>, pos: nat, s: seq<Byte>, post: seq<Byte>)
    requires |p| % 16 == 0 && pos % 16 == 0 && pos <= |p|
    requires p[pos..] == Padded(s) + post
    ensures TakeBlob(p, pos, |s|) == Some((s, pos + Align(|s|)))
    ensures pos + Align(|s|) <= |p| && p[pos + Align(|s|)..] == post
  {
    var tail := Padded(s) + post;
    assert tail[..|s|] == s;
    assert p[pos..pos + |s|] == p[pos..][..|s|];
    assert p[pos + Align(|s|)..] == p[pos..][Align(|s|)..];
  }

  lemma StringTaken(p: seq<Byte>, pos: nat, s: seq<Byte>, post: seq<Byte>)
    requires pos <= |p| && p[pos..] == s + post
    ensures pos + |s| <= |p| && p[pos..pos + |s|] == s && p[pos + |s|..] == post
  {
    assert p[pos..pos + |s|] == p[pos..][..|s|];
    assert p[pos + |s|..] == p[pos..][|s|..];
  }

  lemma {:induction false} StringsTaken(p: seq<Byte>, pos: nat, ss: seq<seq<Byte>>, post: seq<Byte>)
    requires pos <= |p| && p[pos..] == Concat(ss) + post
    ensures TakeStrings(p, pos, Lengths(ss)) == Some((ss, pos + |Concat(ss)|))
    decreases |ss|
  {
    if ss == [] {
    } else {
      var s, rest := ss[0], ss[1..];
      StringTaken(p, pos, s, Concat(rest) + post) by {
        assert s + (Concat(rest) + post) == s + Concat(rest) + post;
      }
      StringsTaken(p, pos + |s|, rest, post);
      assert Lengths(ss)[1..] == Lengths(rest);
      assert [s] + rest == ss;
    }
  }

  lemma LengthsStored(ss: seq<seq<Byte>>)
    requires EnvFits(ss)
    ensures LengthsOk(LengthWords(ss)) && AsLengths(LengthWords(ss)) == Lengths(ss)
  {
  }

  lemma NoEnvTaken(p: seq<Byte>, pos: nat)
    requires |p| % 16 == 0 && pos % 16 == 0 && pos <= |p|
    ensures TakeEnv(p, pos, 0) == Some(([], pos))
  {
  }

  lemma SomeEnvTaken(p: seq<Byte>, pos: nat, ss: seq<seq<Byte>>, gap: seq<Byte>, post: seq<Byte>)
    requires |p| % 16 == 0 && pos % 16 == 0 && pos <= |p| && EnvFits(ss)
    requires p[pos..] == Padded(Words(LengthWords(ss))) + (Concat(ss) + (gap + post))
    requires var n := |Padded(Words(LengthWords(ss)))| + |Concat(ss)|; |gap| == Align(n) - n
    ensures var end := pos + |Padded(Words(LengthWords(ss)))| + |Concat(ss)| + |gap|;
            TakeEnv(p, pos, |ss|) == Some((ss, end)) && end <= |p| && p[end..] == post
  {
    hide Padded, Words, WordsOf, TakeBlob, TakeStrings, LengthWords, Lengths, Concat, Total, Align, EnvFits, Signed;
    var lens := Words(LengthWords(ss));
    BlobTaken(p, pos, lens, Concat(ss) + (gap + post));
    WordsRead(LengthWords(ss));
    LengthsStored(ss);
    var from := pos + Align(|lens|);
    StringsTaken(p, from, ss, gap + post);
    AlignSum(pos, Align(|lens|) + |Concat(ss)|);
    assert p[from + |Concat(ss)| + |gap|..] == p[from..][|Concat(ss)| + |gap|..];
  }

  lemma EnvBlockParts(ss: seq<seq<Byte>>, post: seq<Byte>)
    requires EnvFits(ss) && ss != []
    ensures var lens := Padded(Words(LengthWords(ss)));
            var n := |lens| + |Concat(ss)|;
            var gap := Fill<Byte>(Align(n) - n, 0);
            && EnvBlock(ss) + post == lens + (Concat(ss) + (gap + post))
            && |EnvBlock(ss)| == n + |gap|
  {
    hide Words, LengthWords, Concat;
    var lens := Padded(Words(LengthWords(ss)));
    var n := |lens| + |Concat(ss)|;
    assert EnvBlock(ss) == (lens + Concat(ss)) + Fill<Byte>(Align(n) - n, 0);
    Assoc4(lens, Concat(ss), Fill<Byte>(Align(n) - n, 0), post);
  }

  lemma EnvTakenFrom(p: seq<Byte>, pos: nat, ss: seq<seq<Byte>>, post: seq<Byte>)
    requires |p| % 16 == 0 && pos % 16 == 0 && pos <= |p| && EnvFits(ss) && ss != []
    requires p[pos..] == EnvBlock(ss) + post
    ensures TakeEnv(p, pos, |ss|) == Some((ss, pos + |EnvBlock(ss)|))
    ensures pos + |EnvBlock(ss)| <= |p| && p[pos + |EnvBlock(ss)|..] == post
  {
    hide Padded, Words, LengthWords, Concat, EnvBlock, TakeEnv, EnvFits;
    EnvBlockParts(ss, post);
    var n := |Padded(Words(LengthWords(ss)))| + |Concat(ss)|;
    SomeEnvTaken(p, pos, ss, Fill<Byte>(Align(n) - n, 0), post);
  }

  lemma EnvTaken(p: seq<Byte>, pos: nat, ss: seq<seq<Byte>>, post: seq<Byte>)
    requires |p| % 16 == 0 && pos % 16 == 0 && pos <= |p| && EnvFits(ss)
    requires p[pos..] == EnvBlock(ss) + post
    ensures TakeEnv(p, pos, |ss|) == Some((ss, pos + |EnvBlock(ss)|))
    ensures pos + |EnvBlock(ss)| <= |p| && p[pos + |EnvBlock(ss)|..] == post
  {
    if ss == [] {
      NoEnvTaken(p, pos);
      assert p[pos..] == post;
    } else {
      hide EnvBlock, TakeEnv;
      EnvTakenFrom(p, pos, ss, post);
    }
  }

  lemma PartsTaken(p: seq<Byte>, hdr: seq<U32>, t: Parts)
    requires |hdr| == HEADER_WORDS && |p| >= HEADER_SIZE && HeaderOk(hdr, |p|) && PartsFit(t)
    requires p[HEADER_SIZE..] == Body(t)
    requires Signed(hdr[STYLE_CHECKER_LEN]) == |t.style| && Signed(hdr[SRC_SFX_LEN]) == |t.src|
    requires Signed(hdr[RUN_BLOCK_LEN]) == |t.run|
    requires Signed(hdr[ENV_NUM]) == |t.env| && Signed(hdr[SC_ENV_NUM]) == |t.scEnv|
    ensures TakeParts(p, hdr) == Some(t)
  {
    hide Padded, EnvBlock, TakeBlob, TakeEnv, Signed;
    var b5 := EnvBlock(t.scEnv);
    var b4 := EnvBlock(t.env) + b5;
    var b3 := Padded(t.run) + b4;
    var b2 := Padded(t.src) + b3;
    BlobTaken(p, HEADER_SIZE, t.style, b2);
    var p1 := HEADER_SIZE + Align(|t.style|);
    BlobTaken(p, p1, t.src, b3);
    var p2 := p1 + Align(|t.src|);
    BlobTaken(p, p2, t.run, b4);
    var p3 := p2 + Align(|t.run|);
    EnvTaken(p, p3, t.env, b5);
    var p4 := p3 + |EnvBlock(t.env)|;
    assert b5 == b5 + [];
    EnvTaken(p, p4, t.scEnv, []);
  }

  /** The request with every string cut at its first NUL, empty strings absent, and counts filled in. */
  function Normalized(r: Request): Request
    requires Readable(r) && FieldsOk(r)
  {
    var t := PartsOf(r);
    r.(styleChecker := OrNull(t.style), srcSfx := OrNull(t.src), runBlock := t.run,
       envNum := |t.env|, scEnvNum := |t.scEnv|, envVars := OrNull(t.env), scEnvVars := OrNull(t.scEnv))
  }

  /** A field the header stores as an int comes back as that int. */
  lemma HeaderInt(r: Request, t: Parts, size: CInt, k: nat, v: CInt)
    requires |r.uuid| == 4 && PartsFit(t) && k < HEADER_WORDS && HeaderWord(r, t, size, k) == Unsigned(v)
    ensures Signed(HeaderOf(r, t, size)[k]) == v
  {
    SignedUnsigned(v);
  }

  lemma HeaderIds(r: Request, t: Parts, size: CInt)
    requires |r.uuid| == 4 && PartsFit(t)
    ensures var hdr := HeaderOf(r, t, size);
            && Signed(hdr[PACKET_LEN]) == size && Signed(hdr[VERSION]) == EJ_COMPILE_PACKET_VERSION
            && Signed(hdr[JUDGE_ID]) == r.judgeId && Signed(hdr[CONTEST_ID]) == r.contestId
            && Signed(hdr[RUN_ID]) == r.runId && Signed(hdr[LANG_ID]) == r.langId
            && Signed(hdr[LOCALE_ID]) == r.localeId && Signed(hdr[OUTPUT_ONLY]) == r.outputOnly
  {
    HeaderInt(r, t, size, PACKET_LEN, size);
    HeaderInt(r, t, size, VERSION, EJ_COMPILE_PACKET_VERSION);
    HeaderInt(r, t, size, JUDGE_ID, r.judgeId);
    HeaderInt(r, t, size, CONTEST_ID, r.contestId);
    HeaderInt(r, t, size, RUN_ID, r.runId);
    HeaderInt(r, t, size, LANG_ID, r.langId);
    HeaderInt(r, t, size, LOCALE_ID, r.localeId);
    HeaderInt(r, t, size, OUTPUT_ONLY, r.outputOnly);
  }

  lemma HeaderLengths(r: Request, t: Parts, size: CInt)
    requires |r.uuid| == 4 && PartsFit(t)
    ensures var hdr := HeaderOf(r, t, size);
            && Signed(hdr[STYLE_CHECK_ONLY]) == r.styleCheckOnly
            && Signed(hdr[TS1]) == r.ts1 && Signed(hdr[TS1_US]) == r.ts1Us
            && Signed(hdr[STYLE_CHECKER_LEN]) == |t.style| && Signed(hdr[SRC_SFX_LEN]) == |t.src|
            && Signed(hdr[RUN_BLOCK_LEN]) == |t.run|
            && Signed(hdr[ENV_NUM]) == |t.env| && Signed(hdr[SC_ENV_NUM]) == |t.scEnv|
            && Signed(hdr[USE_UUID]) == r.useUuid
  {
    HeaderInt(r, t, size, STYLE_CHECK_ONLY, r.styleCheckOnly);
    HeaderInt(r, t, size, TS1, r.ts1);
    HeaderInt(r, t, size, TS1_US, r.ts1Us);
    HeaderInt(r, t, size, STYLE_CHECKER_LEN, |t.style|);
    HeaderInt(r, t, size, SRC_SFX_LEN, |t.src|);
    HeaderInt(r, t, size, RUN_BLOCK_LEN, |t.run|);
    HeaderInt(r, t, size, ENV_NUM, |t.env|);
    HeaderInt(r, t, size, SC_ENV_NUM, |t.scEnv|);
    HeaderInt(r, t, size, USE_UUID, r.useUuid);
  }

  lemma HeaderSizes(r: Request, t: Parts, size: CInt)
    requires |r.uuid| == 4 && PartsFit(t)
    ensures var hdr := HeaderOf(r, t, size);
            && Join(hdr[MAX_VM_SIZE], hdr[MAX_VM_SIZE + 1]) == r.maxVmSize
            && Join(hdr[MAX_STACK_SIZE], hdr[MAX_STACK_SIZE + 1]) == r.maxStackSize
            && Join(hdr[MAX_FILE_SIZE], hdr[MAX_FILE_SIZE + 1]) == r.maxFileSize
            && [hdr[UUID], hdr[UUID + 1], hdr[UUID + 2], hdr[UUID + 3]] == r.uuid
  {
    JoinParts(r.maxVmSize);
    JoinParts(r.maxStackSize);
    JoinParts(r.maxFileSize);
    hide Join, Low, High, PartsFit;
  }

  lemma PartsLengths(r: Request)
    requires Readable(r) && FieldsOk(r)
    ensures PartsFit(PartsOf(r)) && |PartsOf(r).run| == r.runBlockLen
  {
  }

  lemma HeaderRead(r: Request, size: CInt)
    requires Readable(r) && FieldsOk(r)
    requires HEADER_SIZE <= size <= EJ_MAX_COMPILE_PACKET_SIZE && size % 16 == 0
    ensures HeaderOk(HeaderOf(r, PartsOf(r), size), size)
    ensures Assemble(HeaderOf(r, PartsOf(r), size), PartsOf(r)) == Normalized(r)
  {
    hide HeaderOf, Signed, Unsigned, Join, PartsOf;
    PartsLengths(r);
    HeaderIds(r, PartsOf(r), size);
    HeaderLengths(r, PartsOf(r), size);
    HeaderSizes(r, PartsOf(r), size);
  }

  /** Whatever the writer accepts, the reader accepts too, and it gets every field back. */
  lemma RequestRoundTrip(r: Request)
    requires Readable(r) && WriteSpec(r).Some?
    ensures ReadSpec(WriteSpec(r).value) == Some(Normalized(r))
  {
    hide Body, HeaderOf, HeaderOk, Assemble, Normalized, Words, WordsOf;
    var t := PartsOf(r);
    var size := HEADER_SIZE + |Body(t)|;
    var hdr := HeaderOf(r, t, size);
    var p := Words(hdr) + Body(t);
    BodyAligned(t);
    Mod16Sum(HEADER_SIZE, |Body(t)|);
    HeaderRead(r, size);
    WordsRead(hdr);
    assert p[..HEADER_SIZE] == Words(hdr);
    HeaderLengths(r, t, size);
    PartsTaken(p, hdr, t);
  }

  // ---------------------------------------------------------------- writing back what was read

  lemma BlobGap(p: seq<Byte>, pos: nat, len: nat)
    requires |p| % 16 == 0 && pos % 16 == 0 && pos <= |p| && TakeBlob(p, pos, len).Some?
    ensures var (s, next) := TakeBlob(p, pos, len).value;
            p[pos..next] == Padded(s) <==> ZeroAt(p, pos + len, next)
  {
    var (s, next) := TakeBlob(p, pos, len).value;
    var whole := p[pos..next];
    if whole == Padded(s) {
      forall k | pos + len <= k < next ensures p[k] == 0 {
        assert p[k] == whole[k - pos] == Padded(s)[k - pos];
      }
    }
    if ZeroAt(p, pos + len, next) {
      forall k | 0 <= k < |whole| ensures whole[k] == Padded(s)[k] { }
    }
  }

  lemma LengthsCons(s: seq<Byte>, ss: seq<seq<Byte>>)
    ensures Lengths([s] + ss) == [|s|] + Lengths(ss) && Concat([s] + ss) == s + Concat(ss)
  {
    assert ([s] + ss)[1..] == ss;
  }

  lemma SliceInTwo(p: seq<Byte>, pos: nat, mid: nat, end: nat)
    requires pos <= mid <= end <= |p|
    ensures p[pos..end] == p[pos..mid] + p[mid..end]
  {
  }

  lemma {:induction false} StringsAreThere(p: seq<Byte>, pos: nat, lens: seq<nat>)
    requires pos <= |p| && TakeStrings(p, pos, lens).Some?
    ensures var (ss, end) := TakeStrings(p, pos, lens).value;
            p[pos..end] == Concat(ss) && Lengths(ss) == lens
    decreases |lens|
  {
    if lens == [] {
    } else {
      hide Lengths, Concat, Total;
      var mid := pos + lens[0];
      StringsAreThere(p, mid, lens[1..]);
      var (ss, end) := TakeStrings(p, mid, lens[1..]).value;
      LengthsCons(p[pos..mid], ss);
      SliceInTwo(p, pos, mid, end);
    }
  }

  lemma ConcatEqual<T>(a: seq<T>, b: seq<T>, c: seq<T>, d: seq<T>)
    requires |a| == |c|
    ensures a + b == c + d <==> a == c && b == d
  {
    if a + b == c + d {
      assert a == (a + b)[..|a|] == c && b == (a + b)[|a|..] == d;
    }
  }

  /** Zeros behind the array of lengths and behind the last string. */
  predicate EnvGapsZero(p: seq<Byte>, pos: nat, num: nat)
    requires |p| % 16 == 0 && pos % 16 == 0 && pos <= |p| && TakeEnv(p, pos, num).Some?
  {
    var (bytes, from) := TakeBlob(p, pos, 4 * num).value;
    var end := from + Total(AsLengths(WordsOf(bytes)));
    ZeroAt(p, pos + 4 * num, from) && ZeroAt(p, end, TakeEnv(p, pos, num).value.1)
  }

  lemma EnvBlockUnpadded(ss: seq<seq<Byte>>)
    requires EnvFits(ss)
    ensures EnvBlock(ss) == Padded(Padded(Words(LengthWords(ss))) + Concat(ss))
  {
  }

  lemma PaddedSlice(p: seq<Byte>, pos: nat, end: nat, next: nat)
    requires pos <= end <= next <= |p| && next == pos + Align(end - pos)
    ensures p[pos..next] == Padded(p[pos..end]) <==> ZeroAt(p, end, next)
  {
    var whole, s := p[pos..next], p[pos..end];
    if whole == Padded(s) {
      forall k | end <= k < next ensures p[k] == 0 { assert p[k] == whole[k - pos] == Padded(s)[k - pos]; }
    }
  }

  lemma LengthsKept(ws: seq<U32>, ss: seq<seq<Byte>>)
    requires LengthsOk(ws) && EnvFits(ss) && Lengths(ss) == AsLengths(ws)
    ensures LengthWords(ss) == ws
  {
    forall k | 0 <= k < |ws| ensures LengthWords(ss)[k] == ws[k] {
      assert Lengths(ss)[k] == AsLengths(ws)[k];
    }
  }

  /** The lengths and the strings, without the gap behind them, are what the writer puts there exactly when the
      gap between them is zero. */
  lemma EnvInner(p: seq<Byte>, pos: nat, bytes: seq<Byte>, from: nat, lens: seq<nat>)
    requires |p| % 16 == 0 && pos % 16 == 0 && pos <= |p| && |bytes| % 4 == 0
    requires TakeBlob(p, pos, |bytes|) == Some((bytes, from)) && TakeStrings(p, from, lens).Some?
    ensures var (ss, end) := TakeStrings(p, from, lens).value;
            && Lengths(ss) == lens && end - pos == |Padded(bytes)| + |Concat(ss)|
            && (p[pos..end] == Padded(bytes) + Concat(ss) <==> ZeroAt(p, pos + |bytes|, from))
  {
    hide Padded, Concat, Lengths, Total, ZeroAt, TakeBlob;
    var (ss, end) := TakeStrings(p, from, lens).value;
    StringsAreThere(p, from, lens);
    BlobGap(p, pos, |bytes|);
    SliceInTwo(p, pos, from, end);
    ConcatEqual(p[pos..from], p[from..end], Padded(bytes), Concat(ss));
  }

  lemma EnvGap(p: seq<Byte>, pos: nat, num: nat)
    requires |p| % 16 == 0 && pos % 16 == 0 && pos <= |p| && TakeEnv(p, pos, num).Some?
    requires num <= EJ_MAX_COMPILE_ENV_NUM
    ensures var (ss, next) := TakeEnv(p, pos, num).value;
            EnvFits(ss) && next == pos + |EnvBlock(ss)| && (p[pos..next] == EnvBlock(ss) <==> EnvGapsZero(p, pos, num))
  {
    hide Padded, Words, WordsOf, TakeBlob, TakeStrings, LengthWords, Lengths, EnvBlock, Total, Concat, ZeroAt, Align;
    var (bytes, from) := TakeBlob(p, pos, 4 * num).value;
    var ws := WordsOf(bytes);
    var (ss, end) := TakeStrings(p, from, AsLengths(ws)).value;
    EnvInner(p, pos, bytes, from, AsLengths(ws));
    LengthsKept(ws, ss);
    WordsWritten(bytes);
    EnvBlockUnpadded(ss);
    AlignSum(pos, end - pos);
    PaddedEqual(p, pos, end, Align(end), Padded(bytes) + Concat(ss));
  }

  /** A slice is the padded form of s exactly when it starts with s and goes on with zeros. */
  lemma PaddedEqual(p: seq<Byte>, pos: nat, end: nat, next: nat, s: seq<Byte>)
    requires pos <= end <= next <= |p| && next == pos + Align(end - pos) && |s| == end - pos
    ensures p[pos..next] == Padded(s) <==> p[pos..end] == s && ZeroAt(p, end, next)
  {
    hide Align, ZeroAt, Padded;
    PaddedSlice(p, pos, end, next);
    if p[pos..next] == Padded(s) { PaddedPrefix(p, pos, end, next, s); }
  }

  lemma PaddedPrefix(p: seq<Byte>, pos: nat, end: nat, next: nat, s: seq<Byte>)
    requires pos <= end <= next <= |p| && |s| == end - pos && p[pos..next] == Padded(s)
    ensures p[pos..end] == s
  {
    assert p[pos..end] == p[pos..next][..end - pos];
  }

  /** All alignment gaps behind the header are filled with zeros. */
  predicate GapsZero(p: seq<Byte>, hdr: seq<U32>)
    requires |hdr| == HEADER_WORDS && |p| >= HEADER_SIZE && HeaderOk(hdr, |p|) && TakeParts(p, hdr).Some?
  {
    var l1, l2, l3 := Signed(hdr[STYLE_CHECKER_LEN]), Signed(hdr[SRC_SFX_LEN]), Signed(hdr[RUN_BLOCK_LEN]);
    var p1 := TakeBlob(p, HEADER_SIZE, l1).value.1;
    var p2 := TakeBlob(p, p1, l2).value.1;
    var p3 := TakeBlob(p, p2, l3).value.1;
    var p4 := TakeEnv(p, p3, Signed(hdr[ENV_NUM])).value.1;
    && ZeroAt(p, HEADER_SIZE + l1, p1) && ZeroAt(p, p1 + l2, p2) && ZeroAt(p, p2 + l3, p3)
    && EnvGapsZero(p, p3, Signed(hdr[ENV_NUM])) && EnvGapsZero(p, p4, Signed(hdr[SC_ENV_NUM]))
  }

  /** The end of a sequence is made of five parts exactly when each part stands in its place. */
  lemma FiveParts(p: seq<Byte>, p0: nat, p1: nat, p2: nat, p3: nat, p4: nat,
                  a: seq<Byte>, b: seq<Byte>, c: seq<Byte>, d: seq<Byte>, e: seq<Byte>)
    requires p0 <= p1 <= p2 <= p3 <= p4 <= |p|
    requires |a| == p1 - p0 && |b| == p2 - p1 && |c| == p3 - p2 && |d| == p4 - p3
    ensures p[p0..] == a + (b + (c + (d + e))) <==>
            p[p0..p1] == a && p[p1..p2] == b && p[p2..p3] == c && p[p3..p4] == d && p[p4..] == e
  {
    SuffixInTwo(p, p0, p1);
    SuffixInTwo(p, p1, p2);
    SuffixInTwo(p, p2, p3);
    SuffixInTwo(p, p3, p4);
    ConcatEqual(p[p0..p1], p[p1..], a, b + (c + (d + e)));
    ConcatEqual(p[p1..p2], p[p2..], b, c + (d + e));
    ConcatEqual(p[p2..p3], p[p3..], c, d + e);
    ConcatEqual(p[p3..p4], p[p4..], d, e);
  }

  lemma SuffixInTwo(p: seq<Byte>, pos: nat, mid: nat)
    requires pos <= mid <= |p|
    ensures p[pos..] == p[pos..mid] + p[mid..]
  {
  }

  lemma BodyGaps(p: seq<Byte>, hdr: seq<U32>)
    requires |hdr| == HEADER_WORDS && |p| >= HEADER_SIZE && HeaderOk(hdr, |p|) && TakeParts(p, hdr).Some?
    ensures p[HEADER_SIZE..] == Body(TakeParts(p, hdr).value) <==> GapsZero(p, hdr)
    ensures |p| == HEADER_SIZE + |Body(TakeParts(p, hdr).value)|
  {
    hide Padded, EnvBlock, EnvGapsZero, TakeBlob, TakeEnv, Signed, ZeroAt, Align;
    var t := TakeParts(p, hdr).value;
    var l1, l2, l3 := Signed(hdr[STYLE_CHECKER_LEN]), Signed(hdr[SRC_SFX_LEN]), Signed(hdr[RUN_BLOCK_LEN]);
    var n4, n5 := Signed(hdr[ENV_NUM]), Signed(hdr[SC_ENV_NUM]);
    var p1 := TakeBlob(p, HEADER_SIZE, l1).value.1;
    var p2 := TakeBlob(p, p1, l2).value.1;
    var p3 := TakeBlob(p, p2, l3).value.1;
    var p4 := TakeEnv(p, p3, n4).value.1;
    BlobGap(p, HEADER_SIZE, l1);
    BlobGap(p, p1, l2);
    BlobGap(p, p2, l3);
    EnvGap(p, p3, n4);
    EnvGap(p, p4, n5);
    assert p[p4..|p|] == p[p4..];
    FiveParts(p, HEADER_SIZE, p1, p2, p3, p4, Padded(t.style), Padded(t.src), Padded(t.run),
              EnvBlock(t.env), EnvBlock(t.scEnv));
  }

  predicate NulFree(ss: seq<seq<Byte>>) { forall k | 0 <= k < |ss| :: 0 !in ss[k] }

  predicate NoNuls(t: Parts) { 0 !in t.style && 0 !in t.src && NulFree(t.env) && NulFree(t.scEnv) }

  /** A packet the writer would have produced itself: a language the writer takes, no NUL inside a
      string, and zeros in the padding of the header and between the parts. */
  predicate Canonical(p: seq<Byte>)
    requires ReadSpec(p).Some?
  {
    var hdr := WordsOf(p[..HEADER_SIZE]);
    && InRange(Signed(hdr[LANG_ID]), 0, EJ_MAX_LANG_ID)
    && NoNuls(TakeParts(p, hdr).value)
    && hdr[PAD] == 0
    && GapsZero(p, hdr)
  }

  lemma CutEnv(ss: seq<seq<Byte>>, num: CInt)
    requires num == |ss|
    ensures var cut := EnvOf(num, OrNull(ss)); |cut| == |ss| && (cut == ss <==> NulFree(ss))
    ensures EnvFits(ss) ==> EnvFits(EnvOf(num, OrNull(ss)))
  {
    var cut := EnvOf(num, OrNull(ss));
    forall k | 0 <= k < |ss| ensures cut[k] == ss[k] <==> 0 !in ss[k] {
      assert cut[k] == CStr<Byte>(ss[k], 0);
    }
  }

  /** What the writer takes out of a request that was read: the parts of the packet, cut at NULs. */
  lemma PartsOfAssembled(hdr: seq<U32>, t: Parts)
    requires |hdr| == HEADER_WORDS && PartsFit(t)
    ensures Readable(Assemble(hdr, t))
    ensures PartsOf(Assemble(hdr, t)) == t <==> NoNuls(t)
    ensures PartsFit(PartsOf(Assemble(hdr, t)))
  {
    CutString(t.style);
    CutString(t.src);
    CutEnv(t.env, |t.env|);
    CutEnv(t.scEnv, |t.scEnv|);
    hide EnvOf, StringOf, NulFree, Signed, Join, OrNull, CStr, EnvFits;
  }

  lemma CutString(s: seq<Byte>)
    ensures |StringOf(OrNull(s))| <= |s| && (StringOf(OrNull(s)) == s <==> 0 !in s)
  {
  }

  lemma HeaderRebuilt(hdr: seq<U32>, t: Parts, n: nat)
    requires |hdr| == HEADER_WORDS && PartsFit(t) && HeaderOk(hdr, n)
    requires |t.style| == Signed(hdr[STYLE_CHECKER_LEN]) && |t.src| == Signed(hdr[SRC_SFX_LEN])
    requires |t.run| == Signed(hdr[RUN_BLOCK_LEN])
    requires |t.env| == Signed(hdr[ENV_NUM]) && |t.scEnv| == Signed(hdr[SC_ENV_NUM])
    ensures HeaderOf(Assemble(hdr, t), t, n) == hdr <==> hdr[PAD] == 0
  {
    var r := Assemble(hdr, t);
    forall k | 0 <= k < HEADER_WORDS && k != PAD ensures HeaderOf(r, t, n)[k] == hdr[k] {
      UnsignedSigned(hdr[k]);
      PartsOfJoin(hdr[MAX_VM_SIZE], hdr[MAX_VM_SIZE + 1]);
      PartsOfJoin(hdr[MAX_STACK_SIZE], hdr[MAX_STACK_SIZE + 1]);
      PartsOfJoin(hdr[MAX_FILE_SIZE], hdr[MAX_FILE_SIZE + 1]);
    }
    assert HeaderOf(r, t, n)[PAD] == 0;
  }

  lemma AssembledFields(p: seq<Byte>)
    requires ReadSpec(p).Some?
    ensures var hdr := WordsOf(p[..HEADER_SIZE]); var t := TakeParts(p, hdr).value;
            var r := Assemble(hdr, t);
            && ReadSpec(p) == Some(r) && Readable(r) && PartsFit(t) && PartsFit(PartsOf(r))
            && (FieldsOk(r) <==> InRange(Signed(hdr[LANG_ID]), 0, EJ_MAX_LANG_ID))
            && HeaderOk(hdr, |p|) && |p| <= EJ_MAX_COMPILE_PACKET_SIZE
  {
    hide TakeParts, PartsOf, PartsFit, Signed, Join;
    var hdr := WordsOf(p[..HEADER_SIZE]);
    PartsOfAssembled(hdr, TakeParts(p, hdr).value);
  }

  /** Writing back a request that was read gives the same bytes exactly when the packet is canonical. */
  lemma RewriteRead(p: seq<Byte>)
    requires ReadSpec(p).Some?
    ensures Readable(ReadSpec(p).value)
    ensures WriteSpec(ReadSpec(p).value) == Some(p) <==> Canonical(p)
  {
    hide Words, WordsOf, TakeParts, HeaderOk, HeaderOf, Assemble, Body, GapsZero, PartsOf, FieldsOk, PartsFit, NoNuls;
    AssembledFields(p);
    var hdr := WordsOf(p[..HEADER_SIZE]);
    var t := TakeParts(p, hdr).value;
    var r := Assemble(hdr, t);
    PartsOfAssembled(hdr, t);
    HeaderRebuilt(hdr, t, |p|);
    BodyGaps(p, hdr);
    WordsWritten(p[..HEADER_SIZE]);
    assert p == p[..HEADER_SIZE] + p[HEADER_SIZE..];
    if WriteSpec(r) == Some(p) {
      RequestRoundTrip(r);
      NormalizedParts(hdr, t);
      assert WriteSpec(r).value == Words(HeaderOf(r, t, |p|)) + Body(t);
      assert WriteSpec(r).value[..HEADER_SIZE] == Words(HeaderOf(r, t, |p|));
      WordsRead(HeaderOf(r, t, |p|));
      ConcatEqual(p[..HEADER_SIZE], p[HEADER_SIZE..], Words(HeaderOf(r, t, |p|)), Body(t));
    }
  }

  /** A request that was read and equals its normal form has no NUL inside a string. */
  lemma NormalizedParts(hdr: seq<U32>, t: Parts)
    requires |hdr| == HEADER_WORDS && PartsFit(t) && Readable(Assemble(hdr, t)) && FieldsOk(Assemble(hdr, t))
    requires Normalized(Assemble(hdr, t)) == Assemble(hdr, t)
    ensures PartsOf(Assemble(hdr, t)) == t
  {
    hide PartsOf, FieldsOk, Signed, Join;
    PartsLengths(Assemble(hdr, t));
    assert OrNull(PartsOf(Assemble(hdr, t)).env) == OrNull(t.env);
  }

  // ---------------------------------------------------------------- two packets

  /** The header of a packet without parts, of the given contest and language, and with a padding word. */
  function Bare(contestId: U32, langId: U32, pad: U32): (ws: seq<U32>)
    ensures |ws| == HEADER_WORDS
  {
    [HEADER_SIZE, EJ_COMPILE_PACKET_VERSION, 0, contestId, 0, langId] + seq(21, _ => 0 as U32) + [pad]
  }

  lemma BareRead(contestId: U32, langId: U32, pad: U32)
    requires contestId <= EJ_MAX_CONTEST_ID && langId <= EJ_MAX_LANG_ID
    ensures var p := Words(Bare(contestId, langId, pad));
            && ReadSpec(p).Some? && ReadSpec(p).value.contestId == contestId
            && (Canonical(p) <==> pad == 0)
  {
    var ws := Bare(contestId, langId, pad);
    var p, t := Words(ws), Parts([], [], [], [], []);
    hide Words, WordsOf, TakeBlob, TakeEnv, Padded;
    WordsRead(ws);
    assert p[..HEADER_SIZE] == p;
    assert Body(t) == [] by { EmptyBody(); }
    PartsTaken(p, ws, t);
    BodyGaps(p, ws);
  }

  lemma EmptyBody()
    ensures Body(Parts([], [], [], [], [])) == []
  {
    AlignZero();
  }

  /** A packet that is accepted but not reproduced: only the padding word of its header is not zero. */
  lemma PaddingIsLost()
    ensures var p := Words(Bare(0, 0, 1));
            && ReadSpec(p).Some? && !Canonical(p)
            && Readable(ReadSpec(p).value) && WriteSpec(ReadSpec(p).value) != Some(p)
  {
    hide ReadSpec, Canonical, Readable, WriteSpec, Words, Bare;
    BareRead(0, 0, 1);
    RewriteRead(Words(Bare(0, 0, 1)));
  }

  /** A packet that is accepted, belongs to a contest, and is reproduced. */
  lemma BareRequest()
    ensures var p := Words(Bare(1, 1, 0));
            ReadSpec(p).Some? && ReadSpec(p).value.contestId == 1 && Canonical(p)
  {
    hide ReadSpec, Canonical, Words, Bare;
    BareRead(1, 1, 0);
  }
}
