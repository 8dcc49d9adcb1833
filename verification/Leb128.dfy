/**
 LEB128 variable-length integers: the writers used for Wasm operands and DWARF
 operands, the decoders of the two standards, and the bounds on their lengths.
 */
module Leb128 {
  import opened Wrappers

  type byte = b: int | 0 <= b < 256

  /** A byte, a piece, and what follows. */
  lemma Behind(b: byte, x: seq<byte>, rest: seq<byte>)
    ensures ([b] + x + rest)[0] == b && ([b] + x + rest)[1..] == x + rest
  {
  }

  lemma Grouped(buf: seq<byte>, a: seq<byte>, b: seq<byte>, c: seq<byte>)
    ensures buf + a + b + c == buf + (a + b + c)
  {
  }

  // ------------------------------------------------------------ unsigned

  /** The bytes the unsigned writer emits for `v`. */
  function EncodeU(v: nat): (bs: seq<byte>)
    ensures bs != []
    decreases v
  {
    if v / 128 == 0 then [v % 128] else [v % 128 + 128] + EncodeU(v / 128)
  }

  /** Reads one unsigned value from the front. */
  function DecodeU(bs: seq<byte>): (r: Option<(nat, seq<byte>)>)
    ensures r.Some? ==> |r.value.1| < |bs|
    decreases |bs|
  {
    if bs == [] then None
    else if bs[0] < 128 then Some((bs[0], bs[1..]))
    else
      match DecodeU(bs[1..])
      case None => None
      case Some((v, rest)) => Some((bs[0] - 128 + 128 * v, rest))
  }

  lemma {:induction false} RoundTripU(v: nat, rest: seq<byte>)
    ensures DecodeU(EncodeU(v) + rest) == Some((v, rest))
    decreases v
  {
    if v / 128 == 0 {
      assert (EncodeU(v) + rest)[1..] == rest;
    } else {
      RoundTripU(v / 128, rest);
      assert (EncodeU(v) + rest)[1..] == EncodeU(v / 128) + rest;
    }
  }

  // ------------------------------------------------------------ signed

  /** The last byte's bit 6 already carries the sign of what is left. */
  predicate SignedDone(low: int, left: int)
  {
    (left == 0 && low < 64) || (left == -1 && low >= 64)
  }

  /** The bytes the signed writer emits; `/` and `%` are the arithmetic shift and the mask. */
  function EncodeS(v: int): (bs: seq<byte>)
    ensures bs != []
    decreases if v < 0 then -v else v + 1
  {
    if SignedDone(v % 128, v / 128) then [v % 128] else [v % 128 + 128] + EncodeS(v / 128)
  }

  function DecodeS(bs: seq<byte>): (r: Option<(int, seq<byte>)>)
    ensures r.Some? ==> |r.value.1| < |bs|
    decreases |bs|
  {
    if bs == [] then None
    else if bs[0] < 64 then Some((bs[0], bs[1..]))
    else if bs[0] < 128 then Some((bs[0] as int - 128, bs[1..]))
    else
      match DecodeS(bs[1..])
      case None => None
      case Some((v, rest)) => Some((bs[0] - 128 + 128 * v, rest))
  }

  lemma {:induction false} RoundTripS(v: int, rest: seq<byte>)
    ensures DecodeS(EncodeS(v) + rest) == Some((v, rest))
    decreases if v < 0 then -v else v + 1
  {
    if SignedDone(v % 128, v / 128) {
      assert (EncodeS(v) + rest)[1..] == rest;
    } else {
      RoundTripS(v / 128, rest);
      assert (EncodeS(v) + rest)[1..] == EncodeS(v / 128) + rest;
    }
  }

  /** The examples the DWARF standard gives for both encodings (version 5, section 7.6). */
  lemma StandardExamples()
    ensures EncodeU(2) == [2] && EncodeU(127) == [0x7F] && EncodeU(128) == [0x80, 1] && EncodeU(129) == [0x81, 1]
    ensures EncodeU(12857) == [0xB9, 0x64]
    ensures EncodeS(2) == [2] && EncodeS(-2) == [0x7E] && EncodeS(127) == [0xFF, 0] && EncodeS(-127) == [0x81, 0x7F]
    ensures EncodeS(128) == [0x80, 1] && EncodeS(-128) == [0x80, 0x7F]
    ensures EncodeS(129) == [0x81, 1] && EncodeS(-129) == [0xFF, 0x7E]
  {
    assert EncodeU(1) == [1] && EncodeU(100) == [0x64];
    assert EncodeS(0) == [0] && EncodeS(1) == [1] && EncodeS(-1) == [0x7F] && EncodeS(-2) == [0x7E];
  }

  // ------------------------------------------------------------ lengths

  function Pow128(n: nat): (p: nat)
    ensures p > 0
  {
    if n == 0 then 1 else 128 * Pow128(n - 1)
  }

  /** `n` bytes suffice exactly for the values below `128^n`. */
  lemma {:induction false} LengthU(v: nat, n: nat)
    requires n > 0
    ensures |EncodeU(v)| <= n <==> v < Pow128(n)
    decreases n
  {
    if n == 1 {
      assert Pow128(1) == 128 * Pow128(0) == 128;
    } else {
      assert v < 128 * Pow128(n - 1) <==> v / 128 < Pow128(n - 1);
      LengthU(v / 128, n - 1);
    }
  }

  lemma {:induction false} LengthS(v: int, n: nat)
    requires n > 0
    ensures |EncodeS(v)| <= n <==> -64 * Pow128(n - 1) <= v < 64 * Pow128(n - 1)
    decreases n
  {
    if n > 1 {
      var p := Pow128(n - 2);
      assert Pow128(n - 1) == 128 * p;
      assert -64 * (128 * p) <= v < 64 * (128 * p) <==> -64 * p <= v / 128 < 64 * p;
      LengthS(v / 128, n - 1);
    }
  }

  /** A complete encoding of anything in `n` bytes denotes a value `n` bytes suffice for. */
  lemma {:induction false} DecodedRangeU(bs: seq<byte>)
    requires DecodeU(bs).Some? && DecodeU(bs).value.1 == []
    ensures DecodeU(bs).value.0 < Pow128(|bs|)
    decreases |bs|
  {
    assert Pow128(|bs|) == 128 * Pow128(|bs| - 1);
    if bs[0] >= 128 { DecodedRangeU(bs[1..]); }
  }

  lemma {:induction false} DecodedRangeS(bs: seq<byte>)
    requires DecodeS(bs).Some? && DecodeS(bs).value.1 == []
    ensures -64 * Pow128(|bs| - 1) <= DecodeS(bs).value.0 < 64 * Pow128(|bs| - 1)
    decreases |bs|
  {
    if bs[0] >= 128 {
      DecodedRangeS(bs[1..]);
      assert Pow128(|bs| - 1) == 128 * Pow128(|bs| - 2);
    }
  }

  /** No byte string that decodes to `v` is shorter than the one the writer emits. */
  lemma ShortestU(v: nat, bs: seq<byte>)
    requires DecodeU(bs) == Some((v, []))
    ensures |EncodeU(v)| <= |bs|
  {
    DecodedRangeU(bs);
    LengthU(v, |bs|);
  }

  lemma ShortestS(v: int, bs: seq<byte>)
    requires DecodeS(bs) == Some((v, []))
    ensures |EncodeS(v)| <= |bs|
  {
    DecodedRangeS(bs);
    LengthS(v, |bs|);
  }

  lemma SmallPowers()
    ensures Pow128(4) == 0x1000_0000 && Pow128(5) == 0x8_0000_0000
    ensures Pow128(9) == 0x8000_0000_0000_0000 && Pow128(10) == 0x40_0000_0000_0000_0000
  {
    assert Pow128(1) == 128 && Pow128(2) == 128 * Pow128(1) && Pow128(3) == 128 * Pow128(2);
    assert Pow128(6) == 128 * Pow128(5) && Pow128(7) == 128 * Pow128(6) && Pow128(8) == 128 * Pow128(7);
  }

  /** 32-bit operands take at most 5 bytes, 64-bit operands at most 10. */
  lemma OperandLengths(u: nat, s: int)
    ensures u < 0x1_0000_0000 ==> |EncodeU(u)| <= 5
    ensures u < 0x1_0000_0000_0000_0000 ==> |EncodeU(u)| <= 10
    ensures -0x8000_0000 <= s < 0x8000_0000 ==> |EncodeS(s)| <= 5
    ensures -0x8000_0000_0000_0000 <= s < 0x8000_0000_0000_0000 ==> |EncodeS(s)| <= 10
  {
    SmallPowers();
    LengthU(u, 5);
    LengthU(u, 10);
    LengthS(s, 5);
    LengthS(s, 10);
  }

  // ------------------------------------------------------------ the writers

  /** The do-while loop that appends an unsigned operand to a byte vector. */
  method WriteU(buf: seq<byte>, value: nat) returns (buf': seq<byte>)
    ensures buf' == buf + EncodeU(value)
  {
    buf' := buf;
    var v := value;
    var more := true;
    while more
      invariant more ==> buf' + EncodeU(v) == buf + EncodeU(value)
      invariant !more ==> buf' == buf + EncodeU(value)
      decreases if more then v + 1 else 0
    {
      var b := v % 128;
      ghost var was := v;
      v := v / 128;
      more := v != 0;
      if more {
        b := b + 128;
        assert buf' + EncodeU(was) == (buf' + [b]) + EncodeU(v);
      }
      buf' := buf' + [b];
    }
  }

  /** The loop that appends a signed operand: it stops once bit 6 carries the sign. */
  method WriteS(buf: seq<byte>, value: int) returns (buf': seq<byte>)
    ensures buf' == buf + EncodeS(value)
  {
    buf' := buf;
    var v := value;
    var more := true;
    while more
      invariant more ==> buf' + EncodeS(v) == buf + EncodeS(value)
      invariant !more ==> buf' == buf + EncodeS(value)
      decreases if !more then 0 else if v < 0 then 1 - v else v + 2
    {
      var b := v % 128;
      ghost var was := v;
      v := v / 128;
      if (v == 0 && b < 64) || (v == -1 && b >= 64) {
        more := false;
      } else {
        b := b + 128;
        assert buf' + EncodeS(was) == (buf' + [b]) + EncodeS(v);
      }
      buf' := buf' + [b];
    }
  }
}
