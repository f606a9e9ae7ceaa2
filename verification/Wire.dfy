/** Bytes, little-endian words, flag words and padding, shared by every module
    that reads or writes a binary format. */
module Wire {
  type byte = b: int | 0 <= b < 256
  type bytes = seq<byte>

  const U32_MAX := 0xFFFF_FFFF
  const U64_MAX := 0xFFFF_FFFF_FFFF_FFFF

  /** The source raises one exception type per tool; which message it carries is
      not part of the model, so a failure has no payload. */
  datatype Result<+T> = Ok(value: T) | Err {
    predicate IsFailure() { Err? }

    function PropagateFailure<U>(): Result<U>
      requires Err?
    {
      Err
    }

    function Extract(): T
      requires Ok?
    {
      value
    }
  }

  datatype Check = Pass | Fail {
    predicate IsFailure() { Fail? }

    function PropagateFailure<U>(): Result<U>
      requires Fail?
    {
      Err
    }
  }

  datatype Option<+T> = None | Some(value: T) {
    function GetOr(default: T): T {
      if Some? then value else default
    }
  }

  predicate IsTrue(o: Option<bool>) {
    o.Some? && o.value
  }

  /** `_require` */
  function Require(condition: bool): Check {
    if condition then Pass else Fail
  }

  // ---------------------------------------------------------------- words

  predicate IsU16(v: int) { 0 <= v < 0x1_0000 }
  predicate IsU32(v: int) { 0 <= v <= U32_MAX }
  predicate IsU64(v: int) { 0 <= v <= U64_MAX }
  predicate IsI8(v: int) { -128 <= v < 128 }
  predicate IsI16(v: int) { -0x8000 <= v < 0x8000 }

  function U16(s: bytes, o: nat): (v: nat)
    requires o + 2 <= |s|
    ensures IsU16(v)
  {
    s[o] as int + 0x100 * s[o + 1] as int
  }

  function U32(s: bytes, o: nat): (v: nat)
    requires o + 4 <= |s|
    ensures IsU32(v)
  {
    s[o] as int + 0x100 * s[o + 1] as int + 0x1_0000 * s[o + 2] as int + 0x100_0000 * s[o + 3] as int
  }

  function U64(s: bytes, o: nat): (v: nat)
    requires o + 8 <= |s|
    ensures IsU64(v)
  {
    U32(s, o) + 0x1_0000_0000 * U32(s, o + 4)
  }

  function I8(b: byte): (v: int)
    ensures IsI8(v)
  {
    if b < 128 then b else b - 256
  }

  function I16(s: bytes, o: nat): (v: int)
    requires o + 2 <= |s|
    ensures IsI16(v)
  {
    var u := U16(s, o);
    if u < 0x8000 then u else u - 0x1_0000
  }

  function Put16(v: nat): (s: bytes)
    requires IsU16(v)
    ensures |s| == 2
  {
    [v % 0x100, v / 0x100]
  }

  function Put32(v: nat): (s: bytes)
    requires IsU32(v)
    ensures |s| == 4
  {
    [v % 0x100, v / 0x100 % 0x100, v / 0x1_0000 % 0x100, v / 0x100_0000]
  }

  function Put64(v: nat): (s: bytes)
    requires IsU64(v)
    ensures |s| == 8
  {
    Put32(v % 0x1_0000_0000) + Put32(v / 0x1_0000_0000)
  }

  function PutI8(v: int): byte
    requires IsI8(v)
  {
    if v >= 0 then v else v + 256
  }

  function PutI16(v: int): (s: bytes)
    requires IsI16(v)
    ensures |s| == 2
  {
    Put16(if v >= 0 then v else v + 0x1_0000)
  }

  /** A two-byte word and its bytes determine each other. */
  lemma Word16(s: bytes, o: nat, v: nat)
    requires o + 2 <= |s| && IsU16(v)
    ensures s[o..o + 2] == Put16(v) <==> U16(s, o) == v
  {
    var p := Put16(v);
    assert U16(p, 0) == v;
    if s[o..o + 2] == p {
      assert s[o] == s[o..o + 2][0] && s[o + 1] == s[o..o + 2][1];
    }
  }

  lemma Word16Signed(s: bytes, o: nat, v: int)
    requires o + 2 <= |s| && IsI16(v)
    ensures s[o..o + 2] == PutI16(v) <==> I16(s, o) == v
  {
    Word16(s, o, if v >= 0 then v else v + 0x1_0000);
  }

  /** A four-byte word and its bytes determine each other. */
  lemma Word32(s: bytes, o: nat, v: nat)
    requires o + 4 <= |s| && IsU32(v)
    ensures s[o..o + 4] == Put32(v) <==> U32(s, o) == v
  {
    var p, t := Put32(v), s[o..o + 4];
    assert t[0] == s[o] && t[1] == s[o + 1] && t[2] == s[o + 2] && t[3] == s[o + 3];
    assert U32(p, 0) == v by { Split32(v); }
    if U32(s, o) == v {
      Digits32(t[0], t[1], t[2], t[3]);
    }
  }

  lemma Split32(v: nat)
    requires IsU32(v)
    ensures v == v % 0x100 + 0x100 * (v / 0x100 % 0x100) + 0x1_0000 * (v / 0x1_0000 % 0x100) + 0x100_0000 * (v / 0x100_0000)
  {
  }

  lemma Digit(a: byte, n: nat)
    ensures (a as int + 0x100 * n) % 0x100 == a && (a as int + 0x100 * n) / 0x100 == n
  {
  }

  lemma Quotients(v: nat)
    ensures v / 0x1_0000 == v / 0x100 / 0x100 && v / 0x100_0000 == v / 0x100 / 0x100 / 0x100
  {
  }

  lemma Digits32(a: byte, b: byte, c: byte, d: byte)
    ensures Put32(a as int + 0x100 * b as int + 0x1_0000 * c as int + 0x100_0000 * d as int) == [a, b, c, d]
  {
    var two: nat := c as int + 0x100 * d as int;
    var three: nat := b as int + 0x100 * two;
    Digit(a, three);
    Digit(b, two);
    Digit(c, d);
    Quotients(a as int + 0x100 * three);
  }

  lemma Word64(s: bytes, o: nat, v: nat)
    requires o + 8 <= |s| && IsU64(v)
    ensures s[o..o + 8] == Put64(v) <==> U64(s, o) == v
  {
    var low, high := v % 0x1_0000_0000, v / 0x1_0000_0000;
    Word32(s, o, low);
    Word32(s, o + 4, high);
    assert s[o..o + 8] == s[o..o + 4] + s[o + 4..o + 8];
    assert Put64(v)[..4] == Put32(low) && Put64(v)[4..] == Put32(high);
    if s[o..o + 8] == Put64(v) {
      assert s[o..o + 8][..4] == s[o..o + 4] && s[o..o + 8][4..] == s[o + 4..o + 8];
    }
  }

  // ---------------------------------------------------------------- flags

  /** The value of a flag word given least significant bit first. */
  function FromBits(bs: seq<bool>): nat {
    if bs == [] then 0 else (if bs[0] then 1 else 0) + 2 * FromBits(bs[1..])
  }

  function ToBits(v: nat, n: nat): (bs: seq<bool>)
    ensures |bs| == n
  {
    if n == 0 then [] else [v % 2 == 1] + ToBits(v / 2, n - 1)
  }

  function Pow2(n: nat): nat {
    if n == 0 then 1 else 2 * Pow2(n - 1)
  }

  lemma {:induction false} Pow2Add(m: nat, n: nat)
    ensures Pow2(m + n) == Pow2(m) * Pow2(n)
  {
    if m != 0 {
      Pow2Add(m - 1, n);
    }
  }

  lemma Pow2Words()
    ensures Pow2(8) == 0x100 && Pow2(16) == 0x1_0000 && Pow2(32) == 0x1_0000_0000
  {
    Pow2Add(8, 8);
    Pow2Add(16, 16);
  }

  lemma {:induction false} FromBitsBound(bs: seq<bool>)
    ensures FromBits(bs) < Pow2(|bs|)
  {
    if bs != [] {
      FromBitsBound(bs[1..]);
    }
  }

  lemma {:induction false} ToFromBits(bs: seq<bool>)
    ensures ToBits(FromBits(bs), |bs|) == bs
  {
    if bs != [] {
      ToFromBits(bs[1..]);
      assert FromBits(bs) / 2 == FromBits(bs[1..]);
    }
  }

  lemma {:induction false} FromToBits(v: nat, n: nat)
    requires v < Pow2(n)
    ensures FromBits(ToBits(v, n)) == v
  {
    if n != 0 {
      FromToBits(v / 2, n - 1);
      assert ToBits(v, n)[1..] == ToBits(v / 2, n - 1);
    }
  }

  function Flags16(s: bytes, o: nat): (bs: seq<bool>)
    requires o + 2 <= |s|
    ensures |bs| == 16
  {
    ToBits(U16(s, o), 16)
  }

  function Flags32(s: bytes, o: nat): (bs: seq<bool>)
    requires o + 4 <= |s|
    ensures |bs| == 32
  {
    ToBits(U32(s, o), 32)
  }

  function ByteOf(bs: seq<bool>): byte
    requires |bs| == 8
  {
    FromBitsBound(bs);
    Pow2Words();
    FromBits(bs)
  }

  function PutFlags16(bs: seq<bool>): (s: bytes)
    requires |bs| == 16
    ensures |s| == 2
  {
    FromBitsBound(bs);
    Pow2Words();
    Put16(FromBits(bs))
  }

  function PutFlags32(bs: seq<bool>): (s: bytes)
    requires |bs| == 32
    ensures |s| == 4
  {
    FromBitsBound(bs);
    Pow2Words();
    Put32(FromBits(bs))
  }

  lemma FlagWord16(s: bytes, o: nat, bs: seq<bool>)
    requires o + 2 <= |s| && |bs| == 16
    ensures s[o..o + 2] == PutFlags16(bs) <==> Flags16(s, o) == bs
  {
    FromBitsBound(bs);
    Pow2Words();
    Word16(s, o, FromBits(bs));
    ToFromBits(bs);
    FromToBits(U16(s, o), 16);
  }

  lemma FlagWord32(s: bytes, o: nat, bs: seq<bool>)
    requires o + 4 <= |s| && |bs| == 32
    ensures s[o..o + 4] == PutFlags32(bs) <==> Flags32(s, o) == bs
  {
    FromBitsBound(bs);
    Pow2Words();
    Word32(s, o, FromBits(bs));
    ToFromBits(bs);
    FromToBits(U32(s, o), 32);
  }

  // ------------------------------------------------------------- zero fill

  function Zeros(n: nat): (s: bytes)
    ensures |s| == n
    ensures forall i :: 0 <= i < n ==> s[i] == 0
  {
    seq(n, _ => 0)
  }

  /** `_zero` */
  predicate AllZero(s: bytes) {
    forall i :: 0 <= i < |s| ==> s[i] == 0
  }

  lemma AllZeroIsZeros(s: bytes)
    ensures AllZero(s) <==> s == Zeros(|s|)
  {
    if AllZero(s) {
      assert s == Zeros(|s|);
    }
  }

  /** How many bytes lift `n` to the next multiple of four. */
  function Padding(n: nat): (p: nat)
    ensures p < 4 && (n + p) % 4 == 0
  {
    (4 - n % 4) % 4
  }

  /** The bytes `s` followed by zeros up to a multiple of four. */
  function Padded(s: bytes): (p: bytes)
    ensures |p| % 4 == 0 && |p| == |s| + Padding(|s|) && p[..|s|] == s
  {
    s + Zeros(Padding(|s|))
  }

  /** A text of ASCII characters as its bytes. */
  function Ascii(s: string): (b: bytes)
    requires forall i :: 0 <= i < |s| ==> s[i] as int < 0x80
    ensures |b| == |s|
  {
    seq(|s|, i requires 0 <= i < |s| => s[i] as byte)
  }

  // ------------------------------------------------- slices of concatenation

  /** Matching a concatenation is matching its two halves. */
  lemma SplitAt(s: bytes, a: bytes, b: bytes)
    ensures s == a + b <==> |a| <= |s| && s[..|a|] == a && s[|a|..] == b
  {
    if |a| <= |s| && s[..|a|] == a && s[|a|..] == b {
      assert s == s[..|a|] + s[|a|..];
    }
  }

  /** A slice of known extent matches a concatenation when its two parts do. */
  lemma SliceSplit(s: bytes, o: nat, e: nat, a: bytes, b: bytes)
    requires o <= e <= |s| && o + |a| + |b| == e
    ensures s[o..e] == a + b <==> s[o..o + |a|] == a && s[o + |a|..e] == b
  {
    SplitAt(s[o..e], a, b);
    assert s[o..e][..|a|] == s[o..o + |a|];
    assert s[o..e][|a|..] == s[o + |a|..e];
  }
}
