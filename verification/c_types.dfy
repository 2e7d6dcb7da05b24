/** C-level vocabulary shared by the models: machine integers, bytes, strings and single bits. */
module CTypes {

  const INT_MAX: int := 0x7fff_ffff

  /** A 32-bit signed `int`. Signed overflow is undefined in C, so every value a model stores in a
      variable of this type is proved to fit. */
  type CInt = x: int | -0x8000_0000 <= x <= 0x7fff_ffff

  /** The contents of a C string: the bytes in front of its terminating NUL. */
  type CString = s: seq<bv8> | 0 !in s

  datatype Option<+T> = None | Some(value: T) {
    predicate IsFailure() { None? }

    function PropagateFailure<U>(): Option<U>
      requires None?
    {
      None
    }

    function Extract(): T
      requires Some?
    {
      value
    }
  }

  /** A number below 64 as a byte, which is also what a C cast gives; counting up keeps the proof small. */
  function DigitOf(v: nat): (d: bv8)
    requires v < 64
    ensures d as nat == v && d < 64 && (v < 32 ==> d < 32)
  {
    if v == 0 then 0 else DigitOf(v - 1) + 1
  }

  /** b & (1 << j) */
  predicate Bit(b: bv8, j: nat)
    requires j < 8
  {
    b & (1 << j) != 0
  }

  /** set[i >> 3] & (1 << (i & 7)) */
  predicate BitAt(bytes: seq<bv8>, i: nat)
    requires i < 8 * |bytes|
  {
    Bit(bytes[i / 8], i % 8)
  }

  /** The bits of a byte, lowest first, and of an array, byte after byte. */
  lemma BitMasks(bytes: seq<bv8>, k: nat)
    requires k < |bytes|
    ensures var b := bytes[k];
            && (BitAt(bytes, 8 * k) <==> b & 1 != 0) && (BitAt(bytes, 8 * k + 1) <==> b & 2 != 0)
            && (BitAt(bytes, 8 * k + 2) <==> b & 4 != 0) && (BitAt(bytes, 8 * k + 3) <==> b & 8 != 0)
            && (BitAt(bytes, 8 * k + 4) <==> b & 16 != 0) && (BitAt(bytes, 8 * k + 5) <==> b & 32 != 0)
            && (BitAt(bytes, 8 * k + 6) <==> b & 64 != 0) && (BitAt(bytes, 8 * k + 7) <==> b & 128 != 0)
  {
  }

  /** `|= 1 << j` turns on bit j and no other. */
  function OrBit(b: bv8, j: nat): (r: bv8)
    requires j < 8
    ensures forall k: nat | k < 8 :: Bit(r, k) == (Bit(b, k) || k == j)
  {
    assert forall k: nat | k < 8 :: Bit(b | (1 << j), k) == (Bit(b, k) || k == j) by {
      forall k: nat | k < 8 ensures Bit(b | (1 << j), k) == (Bit(b, k) || k == j) { OrBitAt(b, j, k); }
    }
    b | (1 << j)
  }

  lemma OrBitAt(b: bv8, j: nat, k: nat)
    requires j < 8 && k < 8
    ensures Bit(b | (1 << j), k) == (Bit(b, k) || j == k)
  {
    if j < 4 {
      if j < 2 { assert j == 0 || j == 1; } else { assert j == 2 || j == 3; }
    }
  }

  /** A non-zero byte has a bit that is on. */
  lemma NonZeroByte(b: bv8)
    requires forall j | 0 <= j < 8 :: !Bit(b, j)
    ensures b == 0
  {
    assert !Bit(b, 0) && !Bit(b, 1) && !Bit(b, 2) && !Bit(b, 3);
    assert !Bit(b, 4) && !Bit(b, 5) && !Bit(b, 6) && !Bit(b, 7);
  }

  lemma ZeroByte(j: nat)
    requires j < 8
    ensures !Bit(0, j)
  {
  }

  /** n copies of x. */
  function Fill<T>(n: nat, x: T): (s: seq<T>)
    ensures |s| == n
  {
    seq(n, _ => x)
  }

  /** strlen of the string in a buffer that has a NUL after its elements. */
  function StrLen<T(==)>(s: seq<T>, nul: T): (n: nat)
    ensures n <= |s| && (n < |s| ==> s[n] == nul)
    ensures forall k | 0 <= k < n :: s[k] != nul
    ensures nul !in s <==> n == |s|
  {
    if s == [] || s[0] == nul then 0
    else
      var n := StrLen(s[1..], nul);
      assert forall k | 1 <= k < |s| :: s[k] == s[1..][k - 1];
      1 + n
  }

  /** The C string in a buffer. */
  function CStr<T(==)>(s: seq<T>, nul: T): seq<T> { s[..StrLen(s, nul)] }

  lemma Assoc<T>(a: seq<T>, b: seq<T>, c: seq<T>)
    ensures a + (b + c) == (a + b) + c
  {
  }

  lemma SuffixOfConcat<T>(a: seq<T>, b: seq<T>, n: nat)
    requires n <= |a|
    ensures (a + b)[n..] == a[n..] + b
  {
  }
}
