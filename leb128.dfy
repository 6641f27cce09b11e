/**
  Leb128: the seven-bit continuation encoding of non-negative integers that
  `BinaryReader.read_7bit_encoded_int32` decodes (unsigned LEB128, as in
  section 7.6 of DWARF version 4 and .NET's 7-bit encoded int). Each octet
  carries seven payload bits, least significant group first; its high bit
  says whether another octet follows.
 */
module Leb128 {
  import opened Bytes

  /** The seven payload bits of an octet, `current & 0x7F`. */
  function Payload(b: byte): (p: nat)
    ensures p < 128
  {
    b as nat % 128
  }

  /** The continuation flag of an octet, `current & 128 != 0`. */
  predicate HasMore(b: byte)
  {
    b >= 128
  }

  /** Payload is the octet masked with 0x7F. */
  lemma PayloadIsMask(x: bv8)
    ensures Payload(x as int as byte) == (x & 0x7F) as int
  {
    assert x & 0x7F == x % 128;
  }

  /** HasMore tests the octet's bit 0x80. */
  lemma HasMoreIsHighBit(x: bv8)
    ensures HasMore(x as int as byte) <==> x & 0x80 != 0
  {
    assert x & 0x80 != 0 <==> x >= 128;
  }

  /** An octet is its payload plus the continuation flag in bit 7. */
  lemma OctetSplit(b: byte)
    ensures b as nat == Payload(b) + (if HasMore(b) then 128 else 0)
  {
  }

  /**
    Value of the payload groups of bs, group i shifted left by 7*i bits:
    the sum over i of `(bs[i] & 0x7F) << (7 * i)`. It is defined by peeling
    off the last octet, the order in which the reader accumulates them.
   */
  function PayloadSum(bs: seq<byte>): (n: nat)
    ensures n < Pow2(7 * |bs|)
  {
    if bs == [] then 0
    else
      var k := |bs| - 1;
      Pow2NextGroup(k);
      MulMonotone(Payload(bs[k]), 127, Pow2(7 * k));
      PayloadSum(bs[..k]) + Shl(Payload(bs[k]), 7 * k)
  }

  /** Each further group scales the value by 2^7. */
  lemma Pow2NextGroup(k: nat)
    ensures Pow2(7 * (k + 1)) == 128 * Pow2(7 * k)
  {
    Pow2Add(7 * k, 7);
  }

  /** The low group and the rest of a value are its remainder and quotient by 2^7. */
  lemma GroupSplit(a: nat, s: nat)
    requires a < 128
    ensures (a + 128 * s) / 128 == s && (a + 128 * s) % 128 == a
  {
  }

  /** Every earlier group has its continuation bit set, the last has it clear. */
  predicate IsVarint(bs: seq<byte>)
  {
    && |bs| > 0
    && !HasMore(bs[|bs| - 1])
    && forall i | 0 <= i < |bs| - 1 :: HasMore(bs[i])
  }

  /** A well-formed encoding with no redundant all-zero group at its end. */
  predicate Canonical(bs: seq<byte>)
  {
    IsVarint(bs) && (|bs| == 1 || Payload(bs[|bs| - 1]) != 0)
  }

  /** The shortest encoding of n: seven bits per octet, least significant first. */
  function Encode(n: nat): (bs: seq<byte>)
    ensures Canonical(bs)
    ensures |bs| > 1 ==> Pow2(7 * (|bs| - 1)) <= n
  {
    if n < 128 then [n as byte]
    else
      var rest := Encode(n / 128);
      var bs := [(n % 128 + 128) as byte] + rest;
      Pow2NextGroup(|rest| - 1);
      assert forall i | 1 <= i < |bs| :: bs[i] == rest[i - 1];
      bs
  }

  /** Appending an octet adds its payload at the next free group. */
  lemma PayloadSumSnoc(bs: seq<byte>, b: byte)
    ensures PayloadSum(bs + [b]) == PayloadSum(bs) + Shl(Payload(b), 7 * |bs|)
  {
    assert (bs + [b])[..|bs|] == bs;
  }

  /** Prepending an octet shifts the value of the others up by one group. */
  lemma {:induction false} PayloadSumCons(b: byte, bs: seq<byte>)
    ensures PayloadSum([b] + bs) == Payload(b) + 128 * PayloadSum(bs)
  {
    if bs == [] {
      PayloadSumSnoc([], b);
    } else {
      var k := |bs| - 1;
      var init, last := bs[..k], bs[k];
      assert bs == init + [last];
      assert [b] + bs == ([b] + init) + [last];
      PayloadSumCons(b, init);
      PayloadSumSnoc([b] + init, last);
      PayloadSumSnoc(init, last);
      Pow2NextGroup(k);
      var p, q := Payload(last), Pow2(7 * k);
      MulShift(p, q);
      calc {
        PayloadSum([b] + bs);
        PayloadSum([b] + init) + p * Pow2(7 * (k + 1));
        Payload(b) + 128 * PayloadSum(init) + p * (128 * q);
        Payload(b) + 128 * PayloadSum(init) + 128 * (p * q);
        Payload(b) + 128 * PayloadSum(bs);
      }
    }
  }

  /** Decoding the encoding of n gives n back. */
  lemma {:induction false} PayloadSumOfEncode(n: nat)
    ensures PayloadSum(Encode(n)) == n
  {
    if n < 128 {
      PayloadSumSnoc([], n as byte);
    } else {
      var h := (n % 128 + 128) as byte;
      assert Encode(n) == [h] + Encode(n / 128);
      assert Payload(h) == n % 128;
      PayloadSumOfEncode(n / 128);
      PayloadSumCons(h, Encode(n / 128));
    }
  }

  /** A group whose payload is not zero makes the value at least its weight. */
  lemma LastGroupWeight(bs: seq<byte>)
    requires |bs| > 0 && Payload(bs[|bs| - 1]) != 0
    ensures PayloadSum(bs) >= Pow2(7 * (|bs| - 1))
  {
    var k := |bs| - 1;
    MulMonotone(1, Payload(bs[k]), Pow2(7 * k));
  }

  /** Dropping the first octet of a longer canonical encoding leaves a canonical encoding. */
  lemma CanonicalTail(bs: seq<byte>)
    requires Canonical(bs) && |bs| > 1
    ensures HasMore(bs[0]) && Canonical(bs[1..])
    ensures PayloadSum(bs[1..]) >= 1
  {
    var rest := bs[1..];
    assert rest[|rest| - 1] == bs[|bs| - 1];
    assert forall i | 0 <= i < |rest| - 1 :: rest[i] == bs[i + 1];
    LastGroupWeight(rest);
  }

  /** A canonical encoding is the encoding of the value it decodes to. */
  lemma {:induction false} EncodeOfPayloadSum(bs: seq<byte>)
    requires Canonical(bs)
    ensures Encode(PayloadSum(bs)) == bs
  {
    if |bs| == 1 {
      assert bs[..0] == [];
    } else {
      var b, rest := bs[0], bs[1..];
      assert bs == [b] + rest;
      CanonicalTail(bs);
      EncodeOfPayloadSum(rest);
      PayloadSumCons(b, rest);
      OctetSplit(b);
      GroupSplit(Payload(b), PayloadSum(rest));
    }
  }
}
