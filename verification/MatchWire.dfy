/** A match as bytes: `Match::encode` and `Match::decode` of `match_fields.rs`, and what a
    switch reads, by sections 7.2.2 and 7.2.3 of the OpenFlow Switch Specification 1.3.0. */
module MatchWire {
  import opened Text
  import opened Numerals
  import opened OpenFlow
  import opened FlowMatch

  const BASIC := 0x8000
  const NXM0 := 0x0000
  const NXM1 := 0x0001

  /** One field: its class and number, whether a mask follows, and the value and mask. */
  datatype Tlv = Tlv(cls: nat, field: nat, masked: bool, payload: Bytes)

  // ---------------------------------------------------------------- masks

  function Pow2(n: nat): (r: nat)
    ensures r >= 1
  {
    if n == 0 then 1 else 2 * Pow2(n - 1)
  }

  /** `prefix_to_mask`: so many ones, then zeros. */
  function PrefixMask(length: nat): nat
    requires length <= 32
  {
    PowGrows(32 - length, 32);
    Pow2(32) - Pow2(32 - length)
  }

  lemma {:induction false} PowGrows(a: nat, b: nat)
    requires a <= b
    ensures Pow2(a) <= Pow2(b)
    decreases b
  {
    if a < b { PowGrows(a, b - 1); }
  }

  /** `leading_ones` of a number of `bits` bits. */
  function LeadingOnes(mask: nat, bits: nat): nat {
    if bits == 0 || mask < Pow2(bits - 1) then 0 else 1 + LeadingOnes(mask - Pow2(bits - 1), bits - 1)
  }

  lemma {:induction false} MaskHasLength(length: nat, bits: nat)
    requires length <= bits
    ensures Pow2(bits) >= Pow2(bits - length)
    ensures LeadingOnes(Pow2(bits) - Pow2(bits - length), bits) == length
  {
    PowGrows(bits - length, bits);
    if length > 0 {
      PowGrows(bits - length, bits - 1);
      MaskHasLength(length - 1, bits - 1);
    } else if bits > 0 {
      assert LeadingOnes(0, bits) == 0;
    }
  }

  lemma MaskBytes(length: nat)
    requires length <= 32
    ensures
      var mask := BigEndianBytes(PrefixMask(length), 4);
      BigEndian(mask) == PrefixMask(length) && LeadingOnes(BigEndian(mask), 32) == length &&
      (BigEndian(mask) == 0 <==> length == 0)
  {
    hide BigEndian, BigEndianBytes, LeadingOnes;
    MaskHasLength(length, 32);
    assert Pow2(32) == Pow256(4) == U32 by { PowersMeet(); }
    BigEndianRoundTrip(PrefixMask(length), 4);
    if length > 0 { PowGrows(32 - length, 31); }
  }

  lemma PowersMeet()
    ensures Pow2(32) == Pow256(4) == U32
  {
    assert Pow2(8) == 256;
    assert Pow2(16) == 256 * Pow2(8);
    assert Pow2(24) == 256 * Pow2(16);
    assert Pow2(32) == 256 * Pow2(24);
    assert Pow256(4) == 256 * Pow256(3) && Pow256(3) == 256 * Pow256(2) && Pow256(2) == 256 * Pow256(1);
  }

  // ---------------------------------------------------------------- one field

  /** Where a field is in its class, and how many bytes it has. */
  function Place(f: MatchField): (nat, nat, nat)
    requires f != TcpFlags
  {
    match f
    case InPortField => (BASIC, 0, 4)
    case EthSrc => (BASIC, 4, 6)
    case EthType => (BASIC, 5, 2)
    case VlanVid => (BASIC, 6, 2)
    case IpProto => (BASIC, 10, 1)
    case Ipv4Src => (BASIC, 11, 4)
    case Ipv4Dst => (BASIC, 12, 4)
    case TcpSrcField => (BASIC, 13, 2)
    case TcpDstField => (BASIC, 14, 2)
    case UdpSrcField => (BASIC, 15, 2)
    case UdpDstField => (BASIC, 16, 2)
    case CtState => (NXM1, 105, 4)
  }

  /** The field there, among those of this model. */
  function FieldAt(cls: nat, field: nat): Option<MatchField> {
    if cls == BASIC then
      match field
      case 0 => Some(InPortField) case 4 => Some(EthSrc) case 5 => Some(EthType) case 6 => Some(VlanVid)
      case 10 => Some(IpProto) case 11 => Some(Ipv4Src) case 12 => Some(Ipv4Dst) case 13 => Some(TcpSrcField)
      case 14 => Some(TcpDstField) case 15 => Some(UdpSrcField) case 16 => Some(UdpDstField) case _ => None
    else if cls == NXM1 then if field == 105 then Some(CtState) else None
    else if cls == NXM0 then
      match field
      case 0 => Some(InPortField) case 2 => Some(EthSrc) case 3 => Some(EthType) case 4 => Some(VlanVid)
      case 6 => Some(IpProto) case 7 => Some(Ipv4Src) case 8 => Some(Ipv4Dst) case 9 => Some(TcpSrcField)
      case 10 => Some(TcpDstField) case 11 => Some(UdpSrcField) case 12 => Some(UdpDstField) case _ => None
    else None
  }

  predicate AreBytes(octets: seq<nat>) { forall i | 0 <= i < |octets| :: octets[i] < 256 }

  function ToBytes(octets: seq<nat>): (r: Bytes)
    requires AreBytes(octets)
    ensures r == octets
  {
    if octets == [] then [] else
      var first: Byte := octets[0];
      [first] + ToBytes(octets[1..])
  }

  /** A value of the width of its field. */
  predicate Fits(f: MatchField, v: MatchValue) {
    match v
    case Number(n) => f !in {EthSrc, Ipv4Src, Ipv4Dst, CtState, TcpFlags} && n < Pow256(Place(f).2)
    case Mac(octets) => f == EthSrc && |octets| == 6 && AreBytes(octets)
    case Prefix(address, _) => f in {Ipv4Src, Ipv4Dst} && |address| == 4 && AreBytes(address)
    case Masked(_, _) => f == CtState
    case Flags(_) => f == TcpFlags
  }

  ghost predicate AllFit(m: Match) {
    forall f | f in m :: Fits(f, m[f])
  }

  function Size(f: MatchField, masked: bool): nat
    requires f != TcpFlags
  {
    if masked then 2 * Place(f).2 else Place(f).2
  }

  /** The value and mask of a field, and whether there is a mask. */
  function Payload(f: MatchField, v: MatchValue): (r: (bool, Bytes))
    requires Fits(f, v) && f != TcpFlags
    ensures |r.1| <= 8 && |r.1| == Size(f, r.0)
  {
    hide BigEndianBytes;
    match v
    case Number(n) => (false, BigEndianBytes(if f == VlanVid then Tagged(n) else n, Place(f).2))
    case Mac(octets) => (false, ToBytes(octets))
    case Prefix(address, length) =>
      if length < 32 then (true, ToBytes(address) + BigEndianBytes(PrefixMask(length), 4))
      else (false, ToBytes(address))
    case Masked(value, mask) => FlagsPayload(value, mask)
  }

  /** All flags asked for: no mask. */
  function FlagsPayload(value: bv32, mask: bv32): (r: (bool, Bytes))
    ensures |r.1| == if r.0 then 8 else 4
  {
    hide BigEndianBytes;
    if mask == 0xffff_ffff then (false, BigEndianBytes(value as nat, 4))
    else (true, BigEndianBytes(value as nat, 4) + BigEndianBytes(mask as nat, 4))
  }

  function TlvOf(f: MatchField, v: MatchValue): (t: Tlv)
    requires Fits(f, v) && f != TcpFlags
    ensures IsTlv(t) && |t.payload| == Size(f, t.masked)
  {
    Tlv(Place(f).0, Place(f).1, Payload(f, v).0, Payload(f, v).1)
  }

  // ---------------------------------------------------------------- fields one after another

  predicate IsTlv(t: Tlv) { t.cls < 0x1_0000 && t.field < 128 && |t.payload| <= 8 }

  /** `OxmHeader::encode`, then value and mask. */
  function TlvBytes(t: Tlv): (r: Bytes)
    requires IsTlv(t)
    ensures |r| == 4 + |t.payload|
  {
    BigEndianBytes(t.cls, 2) + [t.field * 2 + if t.masked then 1 else 0, |t.payload|] + t.payload
  }

  ghost predicate AreTlvs(tlvs: seq<Tlv>) { forall t | t in tlvs :: IsTlv(t) }

  function TlvsBytes(tlvs: seq<Tlv>): Bytes
    requires AreTlvs(tlvs)
  {
    if tlvs == [] then [] else TlvsBytes(tlvs[..|tlvs| - 1]) + TlvBytes(tlvs[|tlvs| - 1])
  }

  /** The loop of `decode`: it stops at a field that is cut short. */
  function ReadTlvs(b: Bytes): seq<Tlv> {
    if |b| < 4 then [] else
      var end: int := 4 + (b[3] as int);
      if |b| < end then [] else [Tlv(BigEndian(b[..2]), b[2] / 2, b[2] % 2 == 1, b[4..end])] + ReadTlvs(b[end..])
  }

  lemma OneTlvReadsBack(t: Tlv, rest: Bytes)
    requires IsTlv(t)
    ensures ReadTlvs(TlvBytes(t) + rest) == [t] + ReadTlvs(rest)
  {
    hide BigEndian, BigEndianBytes;
    var b := TlvBytes(t) + rest;
    assert Pow256(2) == 0x1_0000 by { assert Pow256(1) == 256; }
    BigEndianRoundTrip(t.cls, 2);
    assert b[..2] == BigEndianBytes(t.cls, 2);
    assert b[2] == t.field * 2 + (if t.masked then 1 else 0) && b[3] == |t.payload|;
    assert b[4..4 + |t.payload|] == t.payload && b[4 + |t.payload|..] == rest;
  }

  lemma {:induction false} TlvsReadBack(tlvs: seq<Tlv>, rest: Bytes)
    requires AreTlvs(tlvs)
    ensures ReadTlvs(TlvsBytes(tlvs) + rest) == tlvs + ReadTlvs(rest)
    decreases |tlvs|
  {
    hide ReadTlvs, TlvBytes;
    if tlvs == [] {
      assert TlvsBytes(tlvs) + rest == rest;
    } else {
      var before, last := tlvs[..|tlvs| - 1], tlvs[|tlvs| - 1];
      assert TlvsBytes(tlvs) + rest == TlvsBytes(before) + (TlvBytes(last) + rest);
      TlvsReadBack(before, TlvBytes(last) + rest);
      OneTlvReadsBack(last, rest);
    }
  }

  // ---------------------------------------------------------------- the whole match

  /** The fields in the order they are encoded; the TCP flags are not among them. */
  const ENCODED := [InPortField, EthSrc, EthType, VlanVid, IpProto, Ipv4Src, Ipv4Dst, TcpSrcField, TcpDstField,
                    UdpSrcField, UdpDstField, CtState]

  function TlvsOf(m: Match, fields: seq<MatchField>): (r: seq<Tlv>)
    requires AllFit(m) && TcpFlags !in fields
    ensures AreTlvs(r) && |r| <= |fields|
  {
    if fields == [] then [] else
      var f := fields[|fields| - 1];
      TlvsOf(m, fields[..|fields| - 1]) + (if f in m then [TlvOf(f, m[f])] else [])
  }

  function Padded(n: nat): nat { (n + 7) / 8 * 8 }

  function Zeros(n: nat): (r: Bytes)
    ensures |r| == n
  {
    seq(n, i => 0)
  }

  /** `Match::encode`. */
  function Encoded(m: Match): Bytes
    requires AllFit(m)
  {
    var oxm := TlvsBytes(TlvsOf(m, ENCODED));
    var n := 4 + |oxm|;
    BigEndianBytes(1, 2) + BigEndianBytes(n % 0x1_0000, 2) + oxm + Zeros(Padded(n) - n)
  }

  /** The fields of an encoded match, and the bytes it takes. */
  function FieldsOf(data: Bytes): Option<(seq<Tlv>, nat)> {
    if |data| < 4 || BigEndian(data[..2]) != 1 then None else
      var n := BigEndian(data[2..4]);
      if n < 4 || |data| < n then None else Some((ReadTlvs(data[4..n]), Padded(n)))
  }

  lemma {:induction false} FewBytes(tlvs: seq<Tlv>)
    requires AreTlvs(tlvs)
    ensures |TlvsBytes(tlvs)| <= 12 * |tlvs|
  {
    if tlvs != [] {
      assert tlvs[|tlvs| - 1] in tlvs;
      FewBytes(tlvs[..|tlvs| - 1]);
    }
  }

  lemma EncodedFields(m: Match)
    requires AllFit(m)
    ensures FieldsOf(Encoded(m)) == Some((TlvsOf(m, ENCODED), |Encoded(m)|)) && |Encoded(m)| % 8 == 0
  {
    hide BigEndian, BigEndianBytes, ReadTlvs, TlvsOf, TlvsBytes, ENCODED;
    HowMany();
    var tlvs := TlvsOf(m, ENCODED);
    var oxm, data := TlvsBytes(tlvs), Encoded(m);
    var n := 4 + |oxm|;
    FewBytes(tlvs);
    assert Pow256(2) == 0x1_0000 by { assert Pow256(1) == 256; }
    BigEndianRoundTrip(1, 2);
    BigEndianRoundTrip(n, 2);
    assert data[..2] == BigEndianBytes(1, 2) && data[2..4] == BigEndianBytes(n, 2) && data[4..n] == oxm;
    assert |data| == Padded(n);
    TlvsReadBack(tlvs, []);
    TooShort([]);
    assert oxm + [] == oxm && tlvs + [] == tlvs;
  }

  lemma HowMany()
    ensures |ENCODED| == 12 && TcpFlags !in ENCODED
  {
  }

  lemma TooShort(b: Bytes)
    requires |b| < 4
    ensures ReadTlvs(b) == []
  {
  }

  // ---------------------------------------------------------------- reading a field

  /** The bytes of the value; NXM has ports of two. */
  function Width(cls: nat, f: MatchField): nat
    requires f != TcpFlags
  {
    if cls == NXM0 && f == InPortField then 2 else Place(f).2
  }

  /** A match as `decode` leaves it: an address always has a length, the presence bit of a
      VLAN goes, and flags without a mask keep the mask they had. */
  function ReadValue(before: Match, cls: nat, f: MatchField, masked: bool, b: Bytes): MatchValue
    requires f != TcpFlags && |b| >= Width(cls, f)
  {
    match f
    case EthSrc => Mac(b[..6])
    case Ipv4Src | Ipv4Dst =>
      Prefix(b[..4], if masked && |b| >= 8 then LeadingOnes(BigEndian(b[4..8]), 32) else 32)
    case CtState =>
      Masked(
        Word(b[..4]),
        if masked && |b| >= 8 then Word(b[4..8])
        else if CtState in before && before[CtState].Masked? then before[CtState].mask
        else 0xffff_ffff)
    case VlanVid => Number(if cls == BASIC then BigEndian(b[..2]) % 0x1000 else BigEndian(b[..2]))
    case _ => Number(BigEndian(b[..Width(cls, f)]))
  }

  function Word(b: Bytes): bv32
    requires |b| == 4
  {
    FourBytes(b);
    BigEndian(b) as bv32
  }

  lemma FourBytes(b: Bytes)
    requires |b| == 4
    ensures BigEndian(b) < U32
  {
    hide BigEndian;
    PowersMeet();
  }

  /** `decode_oxm_field`, `decode_nxm_field` and `decode_nxm0_field`. */
  function Put(m: Match, t: Tlv): Match {
    match FieldAt(t.cls, t.field)
    case None => m
    case Some(f) =>
      if (if t.masked then |t.payload| / 2 else |t.payload|) < Width(t.cls, f) then m
      else m[f := ReadValue(m, t.cls, f, t.masked, t.payload)]
  }

  function PutAll(tlvs: seq<Tlv>): Match {
    if tlvs == [] then map[] else Put(PutAll(tlvs[..|tlvs| - 1]), tlvs[|tlvs| - 1])
  }

  /** `Match::decode`. */
  function Decoded(data: Bytes): Option<(Match, nat)> {
    var (tlvs, n) :- FieldsOf(data);
    Some((PutAll(tlvs), n))
  }

  // ---------------------------------------------------------------- the round trip

  function CarriedValue(f: MatchField, v: MatchValue): MatchValue {
    match v
    case Number(n) => if f == VlanVid then Number(n % 0x1000) else v
    case Prefix(address, length) => if length > 32 then Prefix(address, 32) else v
    case _ => v
  }

  /** What encoding and decoding leave of a match. */
  function Carried(m: Match): Match {
    map f | f in m && f != TcpFlags :: CarriedValue(f, m[f])
  }

  lemma PlaceIsField(f: MatchField)
    requires f != TcpFlags
    ensures FieldAt(Place(f).0, Place(f).1) == Some(f) && Width(Place(f).0, f) == Place(f).2
  {
  }

  lemma TaggedFits(vid: nat)
    requires vid < 0x1_0000
    ensures Tagged(vid) < 0x1_0000 && Tagged(vid) % 0x1000 == vid % 0x1000
  {
  }

  lemma SmallPowers()
    ensures Pow256(1) == 256 && Pow256(2) == 0x1_0000 && Pow256(4) == U32
  {
    PowersMeet();
    assert Pow256(1) == 256;
  }

  lemma NumberReads(f: MatchField, n: nat)
    requires f != TcpFlags && Fits(f, Number(n))
    ensures
      var b := Payload(f, Number(n)).1;
      |b| == Place(f).2 && b[..|b|] == b && BigEndian(b) == if f == VlanVid then Tagged(n) else n
  {
    hide BigEndian, BigEndianBytes;
    SmallPowers();
    if f == VlanVid { TaggedFits(n); }
    BigEndianRoundTrip(if f == VlanVid then Tagged(n) else n, Place(f).2);
  }

  lemma WordReads(x: bv32)
    ensures (x as nat) < U32 && Word(BigEndianBytes(x as nat, 4)) == x
  {
    hide BigEndian, BigEndianBytes;
    SmallPowers();
    BigEndianRoundTrip(x as nat, 4);
  }

  /** A field's bytes have its width and read as the value carried. */
  ghost predicate Reads(before: Match, f: MatchField, v: MatchValue)
    requires f != TcpFlags && Fits(f, v)
  {
    var (masked, b) := Payload(f, v);
    |b| == Size(f, masked) && |b| >= Width(Place(f).0, f) &&
    ReadValue(before, Place(f).0, f, masked, b) == CarriedValue(f, v)
  }

  lemma NumberIsRead(before: Match, f: MatchField, n: nat)
    requires f != TcpFlags && Fits(f, Number(n))
    ensures Reads(before, f, Number(n))
  {
    hide BigEndian, BigEndianBytes, FieldAt, LeadingOnes, PrefixMask, Word, Tagged;
    NumberReads(f, n);
    SmallPowers();
    if f == VlanVid { TaggedFits(n); }
  }

  lemma MacIsRead(before: Match, octets: seq<nat>)
    requires Fits(EthSrc, Mac(octets))
    ensures Reads(before, EthSrc, Mac(octets))
  {
    assert ToBytes(octets)[..6] == octets;
  }

  lemma PrefixIsRead(before: Match, f: MatchField, address: seq<nat>, length: nat)
    requires Fits(f, Prefix(address, length))
    ensures Reads(before, f, Prefix(address, length))
  {
    hide BigEndian, BigEndianBytes, LeadingOnes, PrefixMask, Word;
    var b := Payload(f, Prefix(address, length)).1;
    assert b[..4] == address;
    if length < 32 {
      MaskBytes(length);
      assert b[4..8] == BigEndianBytes(PrefixMask(length), 4);
    }
  }

  lemma FlagsAreRead(before: Match, value: bv32, mask: bv32)
    requires CtState !in before
    ensures Reads(before, CtState, Masked(value, mask))
  {
    hide BigEndian, BigEndianBytes, Word;
    WordReads(value);
    WordReads(mask);
    var b := Payload(CtState, Masked(value, mask)).1;
    assert b[..4] == BigEndianBytes(value as nat, 4);
    if mask != 0xffff_ffff { assert b[4..8] == BigEndianBytes(mask as nat, 4); }
  }

  /** One field, written and read: its value is carried. */
  lemma OneFieldReads(before: Match, f: MatchField, v: MatchValue)
    requires f != TcpFlags && f !in before && Fits(f, v)
    ensures Put(before, TlvOf(f, v)) == before[f := CarriedValue(f, v)]
  {
    hide FieldAt, Place, ReadValue, CarriedValue, Payload;
    PlaceIsField(f);
    match v
    case Number(n) => NumberIsRead(before, f, n);
    case Mac(octets) => MacIsRead(before, octets);
    case Prefix(address, length) => PrefixIsRead(before, f, address, length);
    case Masked(value, mask) => FlagsAreRead(before, value, mask);
  }

  predicate Distinct(fields: seq<MatchField>) {
    TcpFlags !in fields && forall i, j | 0 <= i < j < |fields| :: fields[i] != fields[j]
  }

  lemma NoTlvs(m: Match)
    requires AllFit(m)
    ensures TlvsOf(m, []) == []
  {
  }

  /** The fields of a match that are among these. */
  function Among(m: Match, fields: seq<MatchField>): Match {
    map f | f in m && f in fields :: m[f]
  }

  lemma AmongGrows(m: Match, fields: seq<MatchField>)
    requires fields != []
    ensures
      var before, f := fields[..|fields| - 1], fields[|fields| - 1];
      Among(m, fields) == if f in m then Among(m, before)[f := m[f]] else Among(m, before)
  {
    assert fields == fields[..|fields| - 1] + [fields[|fields| - 1]];
  }

  lemma TlvsGrow(m: Match, fields: seq<MatchField>)
    requires AllFit(m) && Distinct(fields) && fields != []
    ensures
      var before, f := fields[..|fields| - 1], fields[|fields| - 1];
      Distinct(before) && TcpFlags !in before && f != TcpFlags && f !in before &&
      TlvsOf(m, fields) == if f in m then TlvsOf(m, before) + [TlvOf(f, m[f])] else TlvsOf(m, before)
  {
    hide TlvOf;
    assert fields == fields[..|fields| - 1] + [fields[|fields| - 1]];
  }

  lemma {:induction false} FieldsRead(m: Match, fields: seq<MatchField>)
    requires AllFit(m) && Distinct(fields)
    ensures PutAll(TlvsOf(m, fields)) == Among(Carried(m), fields)
  {
    hide Put, TlvOf, CarriedValue, TlvsOf, Distinct;
    if fields == [] {
      NoTlvs(m);
    } else {
      var before, f := fields[..|fields| - 1], fields[|fields| - 1];
      TlvsGrow(m, fields);
      AmongGrows(Carried(m), fields);
      FieldsRead(m, before);
      if f in m {
        OneFieldReads(PutAll(TlvsOf(m, before)), f, m[f]);
        assert TlvsOf(m, fields)[..|TlvsOf(m, before)|] == TlvsOf(m, before);
      }
    }
  }

  lemma EncodedAreAll()
    ensures Distinct(ENCODED) && forall f: MatchField | f != TcpFlags :: f in ENCODED
  {
    forall f: MatchField | f != TcpFlags ensures f in ENCODED {
      match f
      case InPortField => assert ENCODED[0] == f;
      case EthSrc => assert ENCODED[1] == f;
      case EthType => assert ENCODED[2] == f;
      case VlanVid => assert ENCODED[3] == f;
      case IpProto => assert ENCODED[4] == f;
      case Ipv4Src => assert ENCODED[5] == f;
      case Ipv4Dst => assert ENCODED[6] == f;
      case TcpSrcField => assert ENCODED[7] == f;
      case TcpDstField => assert ENCODED[8] == f;
      case UdpSrcField => assert ENCODED[9] == f;
      case UdpDstField => assert ENCODED[10] == f;
      case CtState => assert ENCODED[11] == f;
    }
  }

  /** Decoding an encoded match gives what is carried, and the bytes it took. */
  lemma MatchReadsBack(m: Match)
    requires AllFit(m)
    ensures Decoded(Encoded(m)) == Some((Carried(m), |Encoded(m)|)) && |Encoded(m)| % 8 == 0
  {
    hide Encoded, TlvsOf, PutAll, FieldsOf, ENCODED, Distinct;
    EncodedAreAll();
    EncodedFields(m);
    FieldsRead(m, ENCODED);
    assert Among(Carried(m), ENCODED) == Carried(m);
  }

  /** The same match comes back exactly when it has no TCP flags, no VLAN id of more than
      twelve bits and no prefix longer than an address. */
  lemma MatchRoundTripIff(m: Match)
    requires AllFit(m)
    ensures Decoded(Encoded(m)) == Some((m, |Encoded(m)|)) <==>
            TcpFlags !in m && forall f | f in m ::
              (f == VlanVid && m[f].Number? ==> m[f].n < 0x1000) && (m[f].Prefix? ==> m[f].length <= 32)
  {
    hide Encoded, Decoded;
    MatchReadsBack(m);
    if TcpFlags !in m {
      forall f | f in m
        ensures Carried(m)[f] == m[f] <==>
                (f == VlanVid && m[f].Number? ==> m[f].n < 0x1000) && (m[f].Prefix? ==> m[f].length <= 32)
      {
        assert Fits(f, m[f]);
      }
      assert Carried(m) == m <==> forall f | f in m :: Carried(m)[f] == m[f];
    }
  }

  // ---------------------------------------------------------------- what a switch reads

  /** The value of a field, or nothing when no bit of it is compared. */
  function TakenValue(f: MatchField, t: Tlv): Option<MatchValue>
    requires f != TcpFlags && |t.payload| == Size(f, t.masked)
  {
    var w, b := Place(f).2, t.payload;
    if t.masked && BigEndian(b[w..]) == 0 then None else
      match f
      case EthSrc => Some(Mac(b[..6]))
      case Ipv4Src | Ipv4Dst => Some(Prefix(b[..4], if t.masked then LeadingOnes(BigEndian(b[4..]), 32) else 32))
      case CtState => Some(Masked(Word(b[..4]), if t.masked then Word(b[4..]) else 0xffff_ffff))
      case InPortField | EthType | VlanVid | IpProto | TcpSrcField | UdpSrcField | TcpDstField | UdpDstField =>
        Some(Number(BigEndian(b[..w])))
  }

  /** A field of another class or width, or met before, is an error. */
  function Take(m: Match, t: Tlv): Option<Match> {
    match FieldAt(t.cls, t.field)
    case None => None
    case Some(f) =>
      if t.cls == NXM0 || f in m || |t.payload| != Size(f, t.masked) then None else
        match TakenValue(f, t)
        case None => Some(m)
        case Some(v) => Some(m[f := v])
  }

  function TakeAll(tlvs: seq<Tlv>): Option<Match> {
    if tlvs == [] then Some(map[]) else
      var before :- TakeAll(tlvs[..|tlvs| - 1]);
      Take(before, tlvs[|tlvs| - 1])
  }

  function SwitchReads(data: Bytes): Option<Match> {
    var (tlvs, n) :- FieldsOf(data);
    TakeAll(tlvs)
  }

  ghost predicate TakenAsSent(f: MatchField, v: MatchValue)
    requires f != TcpFlags && Fits(f, v)
  {
    TakenValue(f, TlvOf(f, v)) == SentValue(f, v)
  }

  lemma NumberIsTaken(f: MatchField, n: nat)
    requires f != TcpFlags && Fits(f, Number(n))
    ensures TakenAsSent(f, Number(n))
  {
    hide BigEndian, BigEndianBytes, FieldAt, LeadingOnes, PrefixMask, Word, Tagged;
    NumberReads(f, n);
  }

  lemma MacIsTaken(octets: seq<nat>)
    requires Fits(EthSrc, Mac(octets))
    ensures TakenAsSent(EthSrc, Mac(octets))
  {
    assert ToBytes(octets)[..6] == octets;
  }

  lemma PrefixIsTaken(f: MatchField, address: seq<nat>, length: nat)
    requires Fits(f, Prefix(address, length))
    ensures TakenAsSent(f, Prefix(address, length))
  {
    hide BigEndian, BigEndianBytes, LeadingOnes, PrefixMask, Word;
    var b := Payload(f, Prefix(address, length)).1;
    assert b[..4] == address;
    if length < 32 {
      MaskBytes(length);
      assert b[4..] == BigEndianBytes(PrefixMask(length), 4);
    }
  }

  lemma FlagsAreTaken(value: bv32, mask: bv32)
    ensures TakenAsSent(CtState, Masked(value, mask))
  {
    hide BigEndian, BigEndianBytes, Word, PrefixMask, LeadingOnes, FieldAt, ToBytes;
    WordReads(value);
    WordReads(mask);
    var b := Payload(CtState, Masked(value, mask)).1;
    assert b[..4] == BigEndianBytes(value as nat, 4);
    if mask != 0xffff_ffff {
      assert b[4..] == BigEndianBytes(mask as nat, 4);
      ZeroWord(mask);
    }
  }

  lemma ZeroWord(x: bv32)
    ensures (x as nat) < Pow256(4) && (BigEndian(BigEndianBytes(x as nat, 4)) == 0 <==> x == 0)
  {
    hide BigEndian, BigEndianBytes;
    SmallPowers();
    BigEndianRoundTrip(x as nat, 4);
  }

  lemma OneFieldTaken(before: Match, f: MatchField, v: MatchValue)
    requires f != TcpFlags && f !in before && Fits(f, v)
    ensures
      Take(before, TlvOf(f, v)) ==
      match SentValue(f, v)
      case None => Some(before)
      case Some(x) => Some(before[f := x])
  {
    hide FieldAt, Place, TakenValue, SentValue, Payload;
    PlaceIsField(f);
    FieldIsBasic(f);
    match v
    case Number(n) =>
      NumberIsTaken(f, n);
      NumberIsRead(before, f, n);
    case Mac(octets) =>
      MacIsTaken(octets);
      MacIsRead(before, octets);
    case Prefix(address, length) =>
      PrefixIsTaken(f, address, length);
      PrefixIsRead(before, f, address, length);
    case Masked(value, mask) =>
      FlagsAreTaken(value, mask);
      FlagsAreRead(before, value, mask);
  }

  lemma FieldIsBasic(f: MatchField)
    requires f != TcpFlags
    ensures Place(f).0 != NXM0
  {
  }

  lemma {:induction false} FieldsTaken(m: Match, fields: seq<MatchField>)
    requires AllFit(m) && Distinct(fields)
    ensures TakeAll(TlvsOf(m, fields)) == Some(Among(Sent(m), fields))
  {
    hide Take, TlvOf, SentValue, TlvsOf, Distinct;
    if fields == [] {
      NoTlvs(m);
    } else {
      var before, f := fields[..|fields| - 1], fields[|fields| - 1];
      TlvsGrow(m, fields);
      AmongGrows(Sent(m), fields);
      FieldsTaken(m, before);
      if f in m {
        OneFieldTaken(Among(Sent(m), before), f, m[f]);
        assert TlvsOf(m, fields)[..|TlvsOf(m, before)|] == TlvsOf(m, before);
      }
    }
  }

  lemma FlagsAreNotSent(m: Match)
    ensures TcpFlags !in Sent(m)
  {
  }

  /** What a switch reads of the encoded bytes is `Sent`: every field but the TCP flags and
      those whose mask is empty. */
  lemma SwitchReadsSent(m: Match)
    requires AllFit(m)
    ensures SwitchReads(Encoded(m)) == Some(Sent(m))
  {
    hide Encoded, TlvsOf, TakeAll, FieldsOf, ENCODED, Distinct, Sent;
    EncodedAreAll();
    EncodedFields(m);
    FieldsTaken(m, ENCODED);
    FlagsAreNotSent(m);
    assert Among(Sent(m), ENCODED) == Sent(m);
  }

  // ---------------------------------------------------------------- translated matches

  predicate PortsFit(ports: PortMap) {
    forall p | p in ports :: ports[p] < U32
  }

  lemma {:induction false} AllBelow(parts: seq<string>, parse: string -> Option<nat>, limit: nat)
    requires ParseAll(parts, parse).Some? && forall p | parse(p).Some? :: parse(p).value < limit
    ensures forall i | 0 <= i < |parts| :: ParseAll(parts, parse).value[i] < limit
  {
    if parts != [] { AllBelow(parts[..|parts| - 1], parse, limit); }
  }

  lemma MacFits(v: string)
    ensures ParseMac(v).Some? ==> Fits(EthSrc, Mac(ParseMac(v).value))
  {
    hide Split;
    if ParseMac(v).Some? { AllBelow(Split(v, ':'), MacOctet, 256); }
  }

  lemma AddressFits(v: string)
    ensures ParseAddress(v).Some? ==> |ParseAddress(v).value| == 4 && AreBytes(ParseAddress(v).value)
  {
    hide Split;
    if ParseAddress(v).Some? { AllBelow(Split(v, '.'), AddressOctet, 256); }
  }

  lemma CidrFits(v: string)
    ensures ParseCidr(v).Some? ==> |ParseCidr(v).value.0| == 4 && AreBytes(ParseCidr(v).value.0)
  {
    hide ParseAddress, AreBytes;
    SlashIsInside(v);
    AddressFits(v);
    if Slash(v).Some? { AddressFits(v[..Slash(v).value]); }
  }

  lemma ValueFits(f: FieldKey, v: string, ports: PortMap, proto: Option<nat>)
    requires PortsFit(ports) && ValueOf(f, v, ports).Some? && SlotOf(f, proto).Some?
    ensures Fits(SlotOf(f, proto).value, ValueOf(f, v, ports).value)
  {
    hide ParseMac, ParseCidr, ParseTcpFlags, AreBytes;
    SmallPowers();
    MacFits(v);
    CidrFits(v);
  }

  /** Every translated match has values of the width of their fields, so a switch reads its
      bytes as `Sent` says. */
  lemma TranslatedIsReadAsSent(fields: map<string, string>, order: seq<string>, ports: PortMap)
    requires PortsFit(ports) && IsOrder(order, fields.Keys) && MatchOf(fields, order, ports).Some?
    ensures
      var m := MatchOf(fields, order, ports).value;
      AllFit(m) && SwitchReads(Encoded(m)) == Some(Sent(m))
  {
    hide Fits, ValueOf, SlotOf, KeyName, MarkedEthType, MarkedProto, IsOrder, MatchOf, SwitchReads, Encoded, Sent;
    var m := MatchOf(fields, order, ports).value;
    forall slot | slot in m ensures Fits(slot, m[slot]) {
      NoFieldIsInvented(fields, order, ports, slot);
      MarkersFit(fields);
      forall f | KeyName(f) in fields && SlotOf(f, MarkedProto(fields)) == Some(slot) &&
                 Some(m[slot]) == ValueOf(f, fields[KeyName(f)], ports)
        ensures Fits(slot, m[slot])
      {
        ValueFits(f, fields[KeyName(f)], ports, MarkedProto(fields));
      }
    }
    SwitchReadsSent(m);
  }

  lemma MarkersFit(fields: map<string, string>)
    ensures MarkedEthType(fields).Some? ==> Fits(EthType, Number(MarkedEthType(fields).value))
    ensures MarkedProto(fields).Some? ==> Fits(IpProto, Number(MarkedProto(fields).value))
    ensures Fits(EthType, Number(IP_TYPE))
  {
    SmallPowers();
  }

  // ---------------------------------------------------------------- the methods

  function BytesBefore(m: Match, k: nat): Bytes
    requires AllFit(m) && k <= 12
  {
    HowMany();
    TlvsBytes(TlvsOf(m, ENCODED[..k]))
  }

  predicate IsEncodedAt(f: MatchField, k: nat) { k < 12 && ENCODED[k] == f }

  lemma EncodedPlaces()
    ensures IsEncodedAt(InPortField, 0) && IsEncodedAt(EthSrc, 1) && IsEncodedAt(EthType, 2) && IsEncodedAt(VlanVid, 3)
    ensures IsEncodedAt(IpProto, 4) && IsEncodedAt(Ipv4Src, 5) && IsEncodedAt(Ipv4Dst, 6) && IsEncodedAt(TcpSrcField, 7)
    ensures IsEncodedAt(TcpDstField, 8) && IsEncodedAt(UdpSrcField, 9) && IsEncodedAt(UdpDstField, 10)
    ensures IsEncodedAt(CtState, 11)
  {
  }

  /** One `if let` of `encode`. */
  method PushField(oxm: Bytes, m: Match, f: MatchField, ghost k: nat) returns (r: Bytes)
    requires AllFit(m) && IsEncodedAt(f, k) && oxm == BytesBefore(m, k)
    ensures r == BytesBefore(m, k + 1)
  {
    hide TlvBytes, ENCODED;
    HowMany();
    assert ENCODED[..k + 1][..k] == ENCODED[..k] && f in ENCODED;
    ghost var before := TlvsOf(m, ENCODED[..k]);
    if f in m {
      assert (before + [TlvOf(f, m[f])])[..|before|] == before;
      return oxm + TlvBytes(TlvOf(f, m[f]));
    } else {
      assert before + [] == before;
      return oxm;
    }
  }

  method EncodeMatch(m: Match) returns (data: Bytes)
    requires AllFit(m)
    ensures data == Encoded(m)
  {
    hide BytesBefore, BigEndianBytes, IsEncodedAt, TlvsOf, TlvsBytes, ENCODED;
    EncodedPlaces();
    HowMany();
    NothingBefore(m);
    var oxm: Bytes := [];
    oxm := PushField(oxm, m, InPortField, 0);
    oxm := PushField(oxm, m, EthSrc, 1);
    oxm := PushField(oxm, m, EthType, 2);
    oxm := PushField(oxm, m, VlanVid, 3);
    oxm := PushField(oxm, m, IpProto, 4);
    oxm := PushField(oxm, m, Ipv4Src, 5);
    oxm := PushField(oxm, m, Ipv4Dst, 6);
    oxm := PushField(oxm, m, TcpSrcField, 7);
    oxm := PushField(oxm, m, TcpDstField, 8);
    oxm := PushField(oxm, m, UdpSrcField, 9);
    oxm := PushField(oxm, m, UdpDstField, 10);
    oxm := PushField(oxm, m, CtState, 11);
    var n := 4 + |oxm|;
    data := BigEndianBytes(1, 2) + BigEndianBytes(n % 0x1_0000, 2) + oxm + Zeros(Padded(n) - n);
  }

  lemma NothingBefore(m: Match)
    requires AllFit(m)
    ensures BytesBefore(m, 0) == [] && BytesBefore(m, 12) == TlvsBytes(TlvsOf(m, ENCODED))
  {
    assert ENCODED[..12] == ENCODED;
  }

  lemma ReadStep(b: Bytes)
    requires |b| >= 4
    ensures
      var end := 4 + b[3] as int;
      ReadTlvs(b) ==
      if |b| < end then [] else [Tlv(BigEndian(b[..2]), b[2] / 2, b[2] % 2 == 1, b[4..end])] + ReadTlvs(b[end..])
  {
    hide BigEndian;
  }

  /** `decode_oxm`. */
  method DecodeFields(oxm: Bytes) returns (m: Match)
    ensures m == PutAll(ReadTlvs(oxm))
  {
    hide BigEndian, Put, ReadTlvs;
    m := map[];
    var offset := 0;
    ghost var done: seq<Tlv> := [];
    assert oxm[0..] == oxm && done + ReadTlvs(oxm) == ReadTlvs(oxm);
    while offset + 4 <= |oxm|
      invariant 0 <= offset <= |oxm|
      invariant ReadTlvs(oxm) == done + ReadTlvs(oxm[offset..]) && m == PutAll(done)
    {
      var rest := oxm[offset..];
      ReadStep(rest);
      var end := 4 + rest[3] as int;
      if |rest| < end {
        assert done + [] == done;
        return;
      }
      var t := Tlv(BigEndian(rest[..2]), rest[2] / 2, rest[2] % 2 == 1, rest[4..end]);
      assert oxm[offset + end..] == rest[end..];
      assert (done + [t])[..|done|] == done;
      m, done, offset := Put(m, t), done + [t], offset + end;
    }
    TooShort(oxm[offset..]);
    assert done + [] == done;
  }

  method DecodeMatch(data: Bytes) returns (r: Option<(Match, nat)>)
    ensures r == Decoded(data)
  {
    hide BigEndian, PutAll, ReadTlvs;
    if |data| < 4 || BigEndian(data[..2]) != 1 { return None; }
    var n := BigEndian(data[2..4]);
    if n < 4 || |data| < n { return None; }
    var m := DecodeFields(data[4..n]);
    return Some((m, Padded(n)));
  }
}
