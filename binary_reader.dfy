/**
  BinaryIO: the forward-only reader of io.py. The open file is an in-memory
  octet sequence `data` and the file position is the cursor `pos`. For every
  read there is a function of (data, position) that says what the read
  returns and where it leaves the cursor; the methods of `BinaryReader` are
  proved to behave as those functions say.

  A read that runs out of octets fails the way the source does: `fh.read(n)`
  hands back whatever is left, which moves the cursor to the end of the
  stream, and `struct.unpack` then refuses the short buffer.
 */
module BinaryIO {
  import opened Bytes
  import opened Leb128

  datatype Option<T> = None | Some(value: T)

  /** The one failure: unpack was given `got` octets where it needs `needed`. */
  datatype Error = ShortRead(needed: nat, got: nat)

  datatype Result<T> = Ok(value: T) | Err(error: Error)

  /** What one read returns and the cursor position it leaves behind. */
  datatype Step<T> = Step(result: Result<T>, next: nat)

  function Min(a: nat, b: nat): nat
  {
    if a <= b then a else b
  }

  /** The octets `fh.read(n)` returns at cursor pos: n of them, or all that remain. */
  function Take(data: seq<byte>, pos: nat, n: nat): seq<byte>
    requires pos <= |data|
  {
    data[pos..pos + Min(n, |data| - pos)]
  }

  /**
    Two reads in a row return what one read of both counts returns: the
    second starts where the first stopped, and neither skips nor repeats
    an octet.
   */
  lemma TakeThenTake(data: seq<byte>, pos: nat, a: nat, b: nat)
    requires pos <= |data|
    ensures pos + |Take(data, pos, a)| <= |data|
    ensures Take(data, pos, a) + Take(data, pos + |Take(data, pos, a)|, b) == Take(data, pos, a + b)
  {
  }

  /** Every octet from pos to the end of the stream has its high bit set. */
  predicate AllContinue(data: seq<byte>, pos: nat)
  {
    forall j | pos <= j < |data| :: HasMore(data[j])
  }

  /**
    The position just after the first octet at or after pos whose high bit
    is clear, if there is one.
   */
  function VarintEnd(data: seq<byte>, pos: nat): Option<nat>
    requires pos <= |data|
    decreases |data| - pos
  {
    if pos == |data| then None
    else if !HasMore(data[pos]) then Some(pos + 1)
    else VarintEnd(data, pos + 1)
  }

  lemma {:induction false} VarintEndSpec(data: seq<byte>, pos: nat)
    requires pos <= |data|
    ensures var e := VarintEnd(data, pos);
      e.Some? ==> pos < e.value <= |data| && IsVarint(data[pos..e.value])
    ensures VarintEnd(data, pos).None? <==> AllContinue(data, pos)
    decreases |data| - pos
  {
    if pos < |data| && HasMore(data[pos]) {
      VarintEndSpec(data, pos + 1);
      var e := VarintEnd(data, pos + 1);
      if e.Some? {
        var s := data[pos..e.value];
        assert forall i | 1 <= i < |s| :: s[i] == data[pos + 1..e.value][i - 1];
      }
    }
  }

  /** What `read_7bit_encoded_int32` returns at cursor pos and where it leaves the cursor. */
  function VarintAt(data: seq<byte>, pos: nat): (r: Step<nat>)
    requires pos <= |data|
    ensures pos <= r.next <= |data|
    ensures r.result.Ok? ==>
      IsVarint(data[pos..r.next]) && r.result.value == PayloadSum(data[pos..r.next])
    ensures r.result.Err? ==>
      r.next == |data| && r.result.error == ShortRead(1, 0) &&
      AllContinue(data, pos)
  {
    VarintEndSpec(data, pos);
    match VarintEnd(data, pos)
    case Some(e) => Step(Ok(PayloadSum(data[pos..e])), e)
    case None => Step(Err(ShortRead(1, 0)), |data|)
  }

  /** What `struct.unpack` of a width-octet signed integer returns at cursor pos. */
  function FixedAt(data: seq<byte>, pos: nat, width: nat): (r: Step<int>)
    requires pos <= |data| && width > 0
    ensures r.result.Ok? <==> pos + width <= |data|
    ensures r.result.Ok? ==> r.next == pos + width && r.result.value == Signed(data[pos..pos + width])
    ensures r.result.Err? ==> r.next == |data| && r.result.error == ShortRead(width, |data| - pos)
  {
    var bs := Take(data, pos, width);
    if |bs| < width then Step(Err(ShortRead(width, |bs|)), pos + |bs|)
    else Step(Ok(Signed(bs)), pos + width)
  }

  /** What `read_int16` returns at cursor pos and where it leaves the cursor. */
  function Int16At(data: seq<byte>, pos: nat): (r: Step<int>)
    requires pos <= |data|
    ensures r.result.Ok? <==> pos + 2 <= |data|
    ensures r.result.Ok? ==> r.next == pos + 2 && -0x8000 <= r.result.value <= 0x7FFF
    ensures r.result.Ok? ==> r.result.value == Signed(data[pos..pos + 2])
    ensures r.result.Err? ==> r.next == |data| && r.result.error == ShortRead(2, |data| - pos)
  {
    Pow2Values();
    FixedAt(data, pos, 2)
  }

  /** What `read_int32` returns at cursor pos and where it leaves the cursor. */
  function Int32At(data: seq<byte>, pos: nat): (r: Step<int>)
    requires pos <= |data|
    ensures r.result.Ok? <==> pos + 4 <= |data|
    ensures r.result.Ok? ==> r.next == pos + 4 && -0x8000_0000 <= r.result.value <= 0x7FFF_FFFF
    ensures r.result.Ok? ==> r.result.value == Signed(data[pos..pos + 4])
    ensures r.result.Err? ==> r.next == |data| && r.result.error == ShortRead(4, |data| - pos)
  {
    Pow2Values();
    FixedAt(data, pos, 4)
  }

  /** What `read_string` returns at cursor pos and where it leaves the cursor. */
  function StringAt(data: seq<byte>, pos: nat): (r: Step<seq<byte>>)
    requires pos <= |data|
    ensures pos <= r.next <= |data|
    ensures r.result.Ok? <==>
      var len := VarintAt(data, pos);
      len.result.Ok? && len.next + len.result.value <= |data|
    ensures r.result.Ok? ==>
      var len := VarintAt(data, pos);
      |r.result.value| == len.result.value && r.next == len.next + len.result.value &&
      r.result.value == data[len.next..r.next]
    ensures r.result.Err? ==> r.next == |data|
  {
    var len := VarintAt(data, pos);
    match len.result
    case Err(e) => Step(Err(e), len.next)
    case Ok(n) =>
      var bs := Take(data, len.next, n);
      if |bs| < n then Step(Err(ShortRead(n, |bs|)), len.next + |bs|)
      else Step(Ok(bs), len.next + n)
  }

  /**
    The varint read stops exactly after the first octet whose high bit is
    clear: if octets pos .. pos+k-1 all have it set and octet pos+k has it
    clear, the read consumes k+1 octets.
   */
  lemma VarintStopsAtFirstClearHighBit(data: seq<byte>, pos: nat, k: nat)
    requires pos + k < |data| && !HasMore(data[pos + k])
    requires forall j | pos <= j < pos + k :: HasMore(data[j])
    ensures VarintAt(data, pos) == Step(Ok(PayloadSum(data[pos..pos + k + 1])), pos + k + 1)
  {
  }

  /** An octet below 128 is a one-octet varint that decodes to itself. */
  lemma VarintSingleOctet(data: seq<byte>, pos: nat)
    requires pos < |data| && data[pos] < 128
    ensures VarintAt(data, pos) == Step(Ok(data[pos] as nat), pos + 1)
  {
    VarintStopsAtFirstClearHighBit(data, pos, 0);
    assert data[pos..pos + 1][..0] == [];
  }

  /** A stream that ends while every octet still has its high bit set fails the varint read. */
  lemma VarintTruncated(data: seq<byte>, pos: nat)
    requires pos <= |data|
    requires AllContinue(data, pos)
    ensures VarintAt(data, pos) == Step(Err(ShortRead(1, 0)), |data|)
  {
  }

  /** Reading the encoding of n, wherever it sits in the stream, gives n and consumes exactly it. */
  lemma VarintRoundTrip(prefix: seq<byte>, n: nat, suffix: seq<byte>)
    ensures
      var data := prefix + Encode(n) + suffix;
      VarintAt(data, |prefix|) == Step(Ok(n), |prefix| + |Encode(n)|)
  {
    var enc := Encode(n);
    var data := prefix + enc + suffix;
    var p, k := |prefix|, |enc| - 1;
    assert forall j | 0 <= j < |enc| :: data[p + j] == enc[j];
    VarintStopsAtFirstClearHighBit(data, p, k);
    assert data[p..p + k + 1] == enc;
    PayloadSumOfEncode(n);
  }

  /** The decoder does not cap the value at 32 bits: five octets already reach 2^32. */
  lemma VarintExceeds32Bits()
    ensures VarintAt([0x80, 0x80, 0x80, 0x80, 0x10], 0) == Step(Ok(0x1_0000_0000), 5)
  {
    var data: seq<byte> := [0x80, 0x80, 0x80, 0x80, 0x10];
    assert Encode(0x1_0000_0000) == data;
    VarintRoundTrip([], 0x1_0000_0000, []);
    assert [] + data + [] == data;
  }

  /** Reading the two's-complement layout of v gives v back and consumes width octets. */
  lemma FixedRoundTrip(prefix: seq<byte>, v: int, width: nat, suffix: seq<byte>)
    requires width > 0 && -(Pow2(8 * width - 1) as int) <= v < Pow2(8 * width - 1)
    ensures
      var data := prefix + SignedBytes(v, width) + suffix;
      FixedAt(data, |prefix|, width) == Step(Ok(v), |prefix| + width)
  {
    var data := prefix + SignedBytes(v, width) + suffix;
    assert data[|prefix|..|prefix| + width] == SignedBytes(v, width);
    SignedOfSignedBytes(v, width);
  }

  /** A successful fixed-width read determines the octets it consumed. */
  lemma FixedReencodes(data: seq<byte>, pos: nat, width: nat)
    requires pos <= |data| && width > 0
    requires FixedAt(data, pos, width).result.Ok?
    ensures SignedBytes(FixedAt(data, pos, width).result.value, width) == data[pos..pos + width]
  {
    SignedBytesOfSigned(data[pos..pos + width]);
  }

  lemma Int16RoundTrip(prefix: seq<byte>, v: int, suffix: seq<byte>)
    requires -0x8000 <= v <= 0x7FFF
    ensures
      var data := prefix + Int16Bytes(v) + suffix;
      Int16At(data, |prefix|) == Step(Ok(v), |prefix| + 2)
  {
    Pow2Values();
    FixedRoundTrip(prefix, v, 2, suffix);
  }

  lemma Int32RoundTrip(prefix: seq<byte>, v: int, suffix: seq<byte>)
    requires -0x8000_0000 <= v <= 0x7FFF_FFFF
    ensures
      var data := prefix + Int32Bytes(v) + suffix;
      Int32At(data, |prefix|) == Step(Ok(v), |prefix| + 4)
  {
    Pow2Values();
    FixedRoundTrip(prefix, v, 4, suffix);
  }

  /** A string written as the encoding of its length followed by its octets reads back whole. */
  lemma StringRoundTrip(prefix: seq<byte>, s: seq<byte>, suffix: seq<byte>)
    ensures
      var data := prefix + Encode(|s|) + s + suffix;
      StringAt(data, |prefix|) == Step(Ok(s), |prefix| + |Encode(|s|)| + |s|)
  {
    var enc := Encode(|s|);
    var data := prefix + enc + s + suffix;
    assert data == prefix + enc + (s + suffix);
    VarintRoundTrip(prefix, |s|, s + suffix);
    var m := |prefix| + |enc|;
    assert data[m..m + |s|] == s;
  }

  /** The scan of the varint loop has reached the end of the stream. */
  lemma VarintScanFails(data: seq<byte>, start: nat)
    requires start <= |data| && VarintEnd(data, start).None?
    ensures VarintAt(data, start) == Step(Err(ShortRead(1, 0)), |data|)
  {
  }

  /**
    One turn of the varint loop: octet pos joins the value at group
    pos - start, and either ends the read or leaves the scan unchanged.
   */
  lemma VarintScanStep(data: seq<byte>, start: nat, pos: nat)
    requires start <= pos < |data| && VarintEnd(data, pos) == VarintEnd(data, start)
    ensures PayloadSum(data[start..pos + 1]) ==
      PayloadSum(data[start..pos]) + Shl(Payload(data[pos]), 7 * (pos - start))
    ensures HasMore(data[pos]) ==> VarintEnd(data, pos + 1) == VarintEnd(data, start)
    ensures !HasMore(data[pos]) ==>
      VarintAt(data, start) == Step(Ok(PayloadSum(data[start..pos + 1])), pos + 1)
  {
    assert data[start..pos + 1] == data[start..pos] + [data[pos]];
    PayloadSumSnoc(data[start..pos], data[pos]);
  }

  /** A cursor over an in-memory stream; `pos` plays the part of the file position. */
  class BinaryReader {
    const data: seq<byte>
    var pos: nat

    ghost predicate Valid()
      reads this
    {
      pos <= |data|
    }

    /** Opens the stream at its first octet. */
    constructor (data: seq<byte>)
      ensures Valid() && this.data == data && pos == 0
    {
      this.data := data;
      pos := 0;
    }

    /** `fh.read(n)`: up to n octets from the cursor, fewer at the end of the stream. */
    method Read(n: nat) returns (bs: seq<byte>)
      requires Valid()
      modifies this`pos
      ensures Valid()
      ensures bs == Take(data, old(pos), n) && pos == old(pos) + |bs|
    {
      bs := Take(data, pos, n);
      pos := pos + |bs|;
    }

    method Read7BitEncodedInt32() returns (r: Result<nat>)
      requires Valid()
      modifies this`pos
      ensures Valid()
      ensures r == VarintAt(data, old(pos)).result && pos == VarintAt(data, old(pos)).next
    {
      ghost var start := pos;
      var integer: nat := 0;
      var shift: nat := 0;
      while true
        invariant start <= pos <= |data|
        invariant shift == 7 * (pos - start)
        invariant VarintEnd(data, pos) == VarintEnd(data, start)
        invariant integer == PayloadSum(data[start..pos])
        invariant integer < Pow2(shift)
        decreases |data| - pos
      {
        ghost var here := pos;
        var octet := Read(1);
        if |octet| < 1 {
          VarintScanFails(data, start);
          return Err(ShortRead(1, |octet|));
        }
        var current := octet[0];
        VarintScanStep(data, start, here);
        // `integer |= (current & 0x7F) << shift`: integer < 2^shift, so the
        // bits do not overlap and the or is an addition.
        integer := integer + Shl(Payload(current), shift);
        if !HasMore(current) {
          return Ok(integer);
        }
        shift := shift + 7;
      }
    }

    method ReadInt16() returns (r: Result<int>)
      requires Valid()
      modifies this`pos
      ensures Valid()
      ensures r == Int16At(data, old(pos)).result && pos == Int16At(data, old(pos)).next
    {
      var bs := Read(2);
      if |bs| < 2 {
        return Err(ShortRead(2, |bs|));
      }
      r := Ok(Signed(bs));
    }

    method ReadInt32() returns (r: Result<int>)
      requires Valid()
      modifies this`pos
      ensures Valid()
      ensures r == Int32At(data, old(pos)).result && pos == Int32At(data, old(pos)).next
    {
      var bs := Read(4);
      if |bs| < 4 {
        return Err(ShortRead(4, |bs|));
      }
      r := Ok(Signed(bs));
    }

    method ReadString() returns (r: Result<seq<byte>>)
      requires Valid()
      modifies this`pos
      ensures Valid()
      ensures r == StringAt(data, old(pos)).result && pos == StringAt(data, old(pos)).next
    {
      var length := Read7BitEncodedInt32();
      if length.Err? {
        return Err(length.error);
      }
      var bs := Read(length.value);
      if |bs| < length.value {
        return Err(ShortRead(length.value, |bs|));
      }
      r := Ok(bs);
    }
  }
}
