/** The hand-written protobuf wire format of `descriptor.rs`: the `put_*` encoders that
    append to a buffer, the `Reader` that advances over one, and the law between them. */
module Wire {
  import opened Text

  const VARINT: nat := 0
  const FIXED64: nat := 1
  const LEN: nat := 2
  const FIXED32: nat := 5

  // ---------------------------------------------------------------- encoding

  function Varint(v: nat): (r: Bytes)
    ensures |r| >= 1
  {
    if v < 128 then [v] else [v % 128 + 128] + Varint(v / 128)
  }

  function Tag(field: nat, wire: nat): Bytes { Varint(field * 8 + wire) }

  function BytesField(field: nat, b: Bytes): Bytes { Tag(field, LEN) + Varint(|b|) + b }

  function StringField(field: nat, s: string): Bytes { BytesField(field, Utf8(s)) }

  function VarintField(field: nat, v: nat): Bytes { Tag(field, VARINT) + Varint(v) }

  /** `out: &mut Vec<u8>` of the `put_*` functions. */
  class Buffer {
    var bytes: Bytes

    constructor ()
      ensures bytes == []
    {
      bytes := [];
    }

    method PutVarint(value: nat)
      modifies this
      ensures bytes == old(bytes) + Varint(value)
    {
      var v := value;
      while true
        invariant old(bytes) + Varint(value) == bytes + Varint(v)
        decreases v
      {
        var b := v % 128;
        v := v / 128;
        if v == 0 {
          bytes := bytes + [b];
          break;
        }
        ghost var before := bytes;
        bytes := bytes + [b + 128];
        assert before + ([b + 128] + Varint(v)) == bytes + Varint(v);
      }
    }

    method PutTag(field: nat, wire: nat)
      modifies this
      ensures bytes == old(bytes) + Tag(field, wire)
    {
      PutVarint(field * 8 + wire);
    }

    method PutVarintField(field: nat, v: nat)
      modifies this
      ensures bytes == old(bytes) + VarintField(field, v)
    {
      PutTag(field, VARINT);
      PutVarint(v);
    }

    method PutBytes(field: nat, b: Bytes)
      modifies this
      ensures bytes == old(bytes) + BytesField(field, b)
    {
      PutTag(field, LEN);
      PutVarint(|b|);
      bytes := bytes + b;
    }

    method PutString(field: nat, s: string)
      modifies this
      ensures bytes == old(bytes) + StringField(field, s)
    {
      PutBytes(field, Utf8(s));
    }
  }

  // ---------------------------------------------------------------- decoding

  /** `v << (7 * i)`. */
  function Shifted(v: nat, i: nat): (r: nat)
    ensures r >= v
  {
    if i == 0 then v else 128 * Shifted(v, i - 1)
  }

  /** The varint loop at its `i`-th byte: `v` holds the bits read so far, all below bit
      `7 * i`, so `|=` is addition; the shift discards what does not fit in 64 bits. */
  function VarintFrom(buf: Bytes, pos: nat, i: nat, v: nat): (r: Option<(nat, nat)>)
    requires i <= 9
    ensures r.Some? ==> pos < r.value.1 <= |buf| && r.value.1 <= pos + 10 - i
    decreases 9 - i
  {
    if pos >= |buf| then None else
      var b := buf[pos] as int;
      var v' := v + Shifted(b % 128, i) % U64;
      if b < 128 then Some((v', pos + 1))
      else if 7 * (i + 1) > 63 then None
      else VarintFrom(buf, pos + 1, i + 1, v')
  }

  /** The value of a varint and the position after it. */
  function VarintAt(buf: Bytes, pos: nat): (r: Option<(nat, nat)>)
    ensures r.Some? ==> pos < r.value.1 <= |buf| && r.value.1 <= pos + 10
  {
    VarintFrom(buf, pos, 0, 0)
  }

  /** Field number (a `u32`), wire type and the position after the tag. */
  function TagAt(buf: Bytes, pos: nat): (r: Option<(nat, nat, nat)>)
    ensures r.Some? ==> pos < r.value.2 <= |buf|
  {
    match VarintAt(buf, pos)
    case None => None
    case Some((t, next)) => Some((t / 8 % U32, t % 8, next))
  }

  /** Bounds of a borrowed length-delimited payload; reading continues at the upper one. */
  function SliceAt(buf: Bytes, pos: nat): (r: Option<(nat, nat)>)
    ensures r.Some? ==> pos < r.value.0 <= r.value.1 <= |buf|
  {
    match VarintAt(buf, pos)
    case None => None
    case Some((len, lo)) => if lo + len > |buf| then None else Some((lo, lo + len))
  }

  function SkipAt(buf: Bytes, pos: nat, wire: nat): (r: Option<nat>)
    ensures r.Some? ==> pos < r.value <= |buf|
  {
    var end :=
      if wire == VARINT then (match VarintAt(buf, pos) case None => None case Some((_, p)) => Some(p))
      else if wire == FIXED64 then Some(pos + 8)
      else if wire == LEN then (match SliceAt(buf, pos) case None => None case Some((_, hi)) => Some(hi))
      else if wire == FIXED32 then Some(pos + 4)
      else None;
    if end.Some? && end.value > |buf| then None else end
  }

  class Reader {
    const buf: Bytes
    var pos: nat

    constructor (buf: Bytes)
      ensures this.buf == buf && pos == 0
    {
      this.buf := buf;
      pos := 0;
    }

    method ReadVarint() returns (r: Option<nat>)
      modifies this
      ensures match VarintAt(buf, old(pos))
              case None => r == None
              case Some((v, p)) => r == Some(v) && pos == p
    {
      var v: nat := 0;
      var i := 0;
      while true
        invariant 0 <= i <= 9
        invariant VarintAt(buf, old(pos)) == VarintFrom(buf, pos, i, v)
        decreases 9 - i
      {
        if pos >= |buf| {
          return None;
        }
        var b := buf[pos] as int;
        pos := pos + 1;
        v := v + Shifted(b % 128, i) % U64;
        if b < 128 {
          return Some(v);
        }
        if 7 * (i + 1) > 63 {
          return None;
        }
        i := i + 1;
      }
    }

    method ReadTag() returns (r: Option<(nat, nat)>)
      modifies this
      ensures match TagAt(buf, old(pos))
              case None => r == None
              case Some((field, wire, p)) => r == Some((field, wire)) && pos == p
    {
      var t := ReadVarint();
      if t.None? {
        return None;
      }
      return Some((t.value / 8 % U32, t.value % 8));
    }

    method ReadSlice() returns (r: Option<(nat, nat)>)
      modifies this
      ensures r == SliceAt(buf, old(pos))
      ensures r.Some? ==> pos == r.value.1
    {
      var len := ReadVarint();
      if len.None? || pos + len.value > |buf| {
        return None;
      }
      var lo := pos;
      pos := pos + len.value;
      return Some((lo, pos));
    }

    method ReadString() returns (r: Option<string>)
      modifies this
      ensures match SliceAt(buf, old(pos))
              case None => r == None
              case Some((lo, hi)) => r == Some(FromUtf8Lossy(buf[lo..hi])) && pos == hi
    {
      var s := ReadSlice();
      if s.None? {
        return None;
      }
      return Some(FromUtf8Lossy(buf[s.value.0..s.value.1]));
    }

    method Skip(wire: nat) returns (ok: bool)
      modifies this
      ensures match SkipAt(buf, old(pos), wire)
              case None => !ok
              case Some(p) => ok && pos == p
    {
      if wire == VARINT {
        var v := ReadVarint();
        if v.None? { return false; }
      } else if wire == FIXED64 {
        pos := pos + 8;
      } else if wire == LEN {
        var s := ReadSlice();
        if s.None? { return false; }
      } else if wire == FIXED32 {
        pos := pos + 4;
      } else {
        return false;
      }
      return pos <= |buf|;
    }
  }

  // ---------------------------------------------------------------- the law between them

  lemma {:induction false} ShiftedSplit(v: nat, i: nat)
    ensures Shifted(v, i) == Shifted(v % 128, i) + Shifted(v / 128, i + 1)
  {
    if i > 0 { ShiftedSplit(v, i - 1); }
  }

  lemma {:induction false} ShiftedAtLeast(v: nat, i: nat)
    requires v >= 128
    ensures Shifted(v, i) >= Shifted(1, i + 1)
  {
    if i > 0 { ShiftedAtLeast(v, i - 1); }
  }

  lemma TenthByteIsLast(v: nat, i: nat)
    requires i <= 9 && 128 <= v && Shifted(v, i) < U64
    ensures i < 9
  {
    ShiftedAtLeast(v, i);
  }

  /** A `u64` takes at most ten bytes. */
  lemma {:induction false} VarintWidth(v: nat, n: nat)
    requires n >= 1 && v < Shifted(1, n)
    ensures |Varint(v)| <= n
  {
    if v >= 128 { VarintWidth(v / 128, n - 1); }
  }

  lemma VarintHead(buf: Bytes, pos: nat, v: nat)
    requires At(buf, pos, Varint(v))
    ensures pos < |buf| && buf[pos] == (if v < 128 then v else v % 128 + 128)
    ensures v < 128 ==> |Varint(v)| == 1
    ensures v >= 128 ==> At(buf, pos + 1, Varint(v / 128)) && |Varint(v)| == 1 + |Varint(v / 128)|
  {
    assert buf[pos] == buf[pos..pos + |Varint(v)|][0];
    if v >= 128 { AtSplit(buf, pos, [v % 128 + 128], Varint(v / 128)); }
  }

  lemma VarintFromUnfolds(buf: Bytes, pos: nat, i: nat, acc: nat, low: nat)
    requires i <= 9 && pos < |buf| && Shifted(low, i) < U64 && buf[pos] as int % 128 == low
    ensures buf[pos] < 128 ==> VarintFrom(buf, pos, i, acc) == Some((acc + Shifted(low, i), pos + 1))
    ensures buf[pos] >= 128 && i < 9 ==>
              VarintFrom(buf, pos, i, acc) == VarintFrom(buf, pos + 1, i + 1, acc + Shifted(low, i))
  {
    hide Shifted;
  }

  /** One round of the loop reads the low seven bits of `v`. */
  lemma VarintFromStep(buf: Bytes, pos: nat, i: nat, acc: nat, v: nat)
    requires i <= 9 && At(buf, pos, Varint(v))
    requires acc + Shifted(v, i) < U64
    ensures v < 128 ==> VarintFrom(buf, pos, i, acc) == Some((acc + Shifted(v, i), pos + 1))
    ensures v >= 128 ==> i < 9 && acc + Shifted(v % 128, i) + Shifted(v / 128, i + 1) == acc + Shifted(v, i)
    ensures v >= 128 ==> VarintFrom(buf, pos, i, acc) == VarintFrom(buf, pos + 1, i + 1, acc + Shifted(v % 128, i))
  {
    hide At, Varint, Shifted, VarintFrom;
    VarintHead(buf, pos, v);
    ShiftedSplit(v, i);
    if v >= 128 { TenthByteIsLast(v, i); }
    assert buf[pos] as int % 128 == v % 128;
    VarintFromUnfolds(buf, pos, i, acc, v % 128);
  }

  lemma {:induction false} VarintFromReadsBack(buf: Bytes, pos: nat, i: nat, acc: nat, v: nat)
    requires i <= 9 && At(buf, pos, Varint(v))
    requires acc + Shifted(v, i) < U64
    ensures VarintFrom(buf, pos, i, acc) == Some((acc + Shifted(v, i), pos + |Varint(v)|))
    decreases v
  {
    hide VarintFrom, Shifted, At, Varint;
    VarintHead(buf, pos, v);
    VarintFromStep(buf, pos, i, acc, v);
    if v >= 128 {
      VarintFromReadsBack(buf, pos + 1, i + 1, acc + Shifted(v % 128, i), v / 128);
    }
  }

  lemma VarintReadsBack(buf: Bytes, pos: nat, v: nat)
    requires v < U64 && At(buf, pos, Varint(v))
    ensures VarintAt(buf, pos) == Some((v, pos + |Varint(v)|))
    ensures |Varint(v)| <= 10
  {
    VarintFromReadsBack(buf, pos, 0, 0, v);
    assert Shifted(1, 10) > U64;
    VarintWidth(v, 10);
  }

  lemma TagReadsBack(buf: Bytes, pos: nat, field: nat, wire: nat)
    requires field < U32 && wire < 8 && At(buf, pos, Tag(field, wire))
    ensures TagAt(buf, pos) == Some((field, wire, pos + |Tag(field, wire)|))
  {
    hide VarintAt, Varint;
    VarintReadsBack(buf, pos, field * 8 + wire);
  }

  lemma AtThree(buf: Bytes, pos: nat, x: Bytes, y: Bytes, z: Bytes)
    requires At(buf, pos, x + y + z)
    ensures At(buf, pos, x) && At(buf, pos + |x|, y) && At(buf, pos + |x| + |y|, z)
  {
    AtSplit(buf, pos, x + y, z);
    AtSplit(buf, pos, x, y);
  }

  lemma SliceReadsBack(buf: Bytes, start: nat, b: Bytes)
    requires |b| < U64 && At(buf, start, Varint(|b|)) && At(buf, start + |Varint(|b|)|, b)
    ensures
      var lo := start + |Varint(|b|)|;
      SliceAt(buf, start) == Some((lo, lo + |b|)) && buf[lo..lo + |b|] == b
  {
    hide VarintAt, Varint;
    VarintReadsBack(buf, start, |b|);
  }

  /** A value behind a tag: seven bits a byte, eight bytes, a length and so many, or four
      bytes. */
  datatype Written =
    | WrittenVarint(v: nat) | WrittenFixed64(b: Bytes) | WrittenSlice(b: Bytes) | WrittenFixed32(b: Bytes)

  predicate IsWritten(x: Written) {
    match x
    case WrittenVarint(v) => v < U64
    case WrittenFixed64(b) => |b| == 8
    case WrittenSlice(b) => |b| < U64
    case WrittenFixed32(b) => |b| == 4
  }

  function WireTypeOf(x: Written): nat {
    match x case WrittenVarint(_) => 0 case WrittenFixed64(_) => 1 case WrittenSlice(_) => 2 case WrittenFixed32(_) => 5
  }

  function ValueBytes(x: Written): Bytes {
    match x
    case WrittenVarint(v) => Varint(v)
    case WrittenFixed64(b) => b
    case WrittenSlice(b) => Varint(|b|) + b
    case WrittenFixed32(b) => b
  }

  /** Whatever value stands there in whatever buffer, skipping it ends right behind it; of any
      other wire type nothing can be skipped. */
  lemma WrittenIsSkipped(buf: Bytes, pos: nat, x: Written)
    requires IsWritten(x) && At(buf, pos, ValueBytes(x))
    ensures SkipAt(buf, pos, WireTypeOf(x)) == Some(pos + |ValueBytes(x)|)
    ensures forall wire | wire !in {0, 1, 2, 5} :: SkipAt(buf, pos, wire) == None
  {
    hide Varint, VarintAt, SliceAt;
    match x
    case WrittenVarint(v) => VarintReadsBack(buf, pos, v);
    case WrittenSlice(b) =>
      AtSplit(buf, pos, Varint(|b|), b);
      SliceReadsBack(buf, pos, b);
    case _ =>
  }

  /** Reading a length-delimited field gives its number and exactly its payload. */
  lemma BytesFieldReadsBack(buf: Bytes, pos: nat, field: nat, b: Bytes)
    requires field < U32 && |buf| < U64 && At(buf, pos, BytesField(field, b))
    ensures
      var start := pos + |Tag(field, LEN)|;
      var lo := start + |Varint(|b|)|;
      TagAt(buf, pos) == Some((field, LEN, start)) &&
      SliceAt(buf, start) == Some((lo, lo + |b|)) &&
      buf[lo..lo + |b|] == b && pos < lo && lo + |b| == pos + |BytesField(field, b)|
  {
    hide TagAt, SliceAt, Tag, Varint;
    var start := pos + |Tag(field, LEN)|;
    AtThree(buf, pos, Tag(field, LEN), Varint(|b|), b);
    TagReadsBack(buf, pos, field, LEN);
    SliceReadsBack(buf, start, b);
  }

  lemma VarintFieldReadsBack(buf: Bytes, pos: nat, field: nat, v: nat)
    requires field < U32 && v < U64 && At(buf, pos, VarintField(field, v))
    ensures
      var start := pos + |Tag(field, VARINT)|;
      TagAt(buf, pos) == Some((field, VARINT, start)) &&
      VarintAt(buf, start) == Some((v, pos + |VarintField(field, v)|))
  {
    hide TagAt, VarintAt, Tag, Varint;
    AtSplit(buf, pos, Tag(field, VARINT), Varint(v));
    TagReadsBack(buf, pos, field, VARINT);
    VarintReadsBack(buf, pos + |Tag(field, VARINT)|, v);
  }
}
