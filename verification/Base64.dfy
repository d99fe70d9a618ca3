/** `b64_encode` and `b64_decode` of `identity.rs`: base64 with padding, as in section 4 of
    RFC 4648. Encoding is exact; the decoder also takes missing or surplus padding and
    nonzero spare bits. */
module Base64 {
  import opened Text

  /** Six bits as a letter of the alphabet. */
  function Letter(v: nat): (c: char)
    requires v < 64
  {
    if v < 26 then 'A' + v as char
    else if v < 52 then 'a' + (v - 26) as char
    else if v < 62 then '0' + (v - 52) as char
    else if v == 62 then '+'
    else '/'
  }

  /** `val`. */
  function Value(c: char): (r: Option<nat>)
    ensures r.Some? ==> r.value < 64
  {
    if 'A' <= c <= 'Z' then Some(c as int - 'A' as int)
    else if 'a' <= c <= 'z' then Some(c as int - 'a' as int + 26)
    else if '0' <= c <= '9' then Some(c as int - '0' as int + 52)
    else if c == '+' then Some(62)
    else if c == '/' then Some(63)
    else None
  }

  lemma LetterHasValue(v: nat)
    requires v < 64
    ensures Value(Letter(v)) == Some(v) && Letter(v) != '='
  {
  }

  lemma ValueHasLetter(c: char)
    requires Value(c).Some?
    ensures Letter(Value(c).value) == c
  {
  }

  lemma LettersHaveValues()
    ensures forall v: nat | v < 64 :: Value(Letter(v)) == Some(v) && Letter(v) != '='
    ensures forall c | Value(c).Some? :: Letter(Value(c).value) == c
  {
    hide Letter, Value;
    forall v: nat | v < 64 ensures Value(Letter(v)) == Some(v) && Letter(v) != '=' { LetterHasValue(v); }
    forall c | Value(c).Some? ensures Letter(Value(c).value) == c { ValueHasLetter(c); }
  }

  // ---------------------------------------------------------------- encoding

  function Group(b0: Byte, b1: Byte, b2: Byte): nat { b0 * 0x1_0000 + b1 * 0x100 + b2 }

  /** The `k`-th six bits of a group of twenty-four. */
  function Sextet(n: nat, k: nat): (v: nat)
    requires k < 4
    ensures v < 64
  {
    (match k case 0 => n / 0x4_0000 case 1 => n / 0x1000 case 2 => n / 0x40 case _ => n) % 64
  }

  /** The letters of a chunk of one, two or three bytes, without padding. */
  function ChunkLetters(chunk: Bytes): (s: string)
    requires 1 <= |chunk| <= 3
    ensures |s| == |chunk| + 1
  {
    var n := Group(chunk[0], if |chunk| > 1 then chunk[1] else 0, if |chunk| > 2 then chunk[2] else 0);
    [Letter(Sextet(n, 0)), Letter(Sextet(n, 1))] +
    (if |chunk| > 1 then [Letter(Sextet(n, 2))] else []) +
    (if |chunk| > 2 then [Letter(Sextet(n, 3))] else [])
  }

  function Padding(n: nat): string {
    if n % 3 == 1 then "==" else if n % 3 == 2 then "=" else ""
  }

  function Letters(data: Bytes): string {
    if data == [] then ""
    else if |data| < 3 then ChunkLetters(data)
    else ChunkLetters(data[..3]) + Letters(data[3..])
  }

  function Encode(data: Bytes): string {
    Letters(data) + Padding(|data|)
  }

  // ---------------------------------------------------------------- decoding

  /** `trim_end_matches('=')`. */
  function Trim(s: string): (t: string)
    ensures |t| <= |s|
    ensures t == "" || t[|t| - 1] != '='
  {
    if s != "" && s[|s| - 1] == '=' then Trim(s[..|s| - 1]) else s
  }

  function ValueAt(chunk: string, i: nat): Option<nat> {
    if i < |chunk| then Value(chunk[i]) else Some(0)
  }

  /** The bytes of a chunk of two to four letters. */
  function ChunkBytes(chunk: string): (r: Option<Bytes>)
    requires 1 <= |chunk| <= 4
    ensures r.Some? ==> |chunk| > 1 && |r.value| == |chunk| - 1
  {
    if |chunk| == 1 then None else
      var v0 :- ValueAt(chunk, 0);
      var v1 :- ValueAt(chunk, 1);
      var v2 :- ValueAt(chunk, 2);
      var v3 :- ValueAt(chunk, 3);
      Some(BytesOf(v0 * 0x4_0000 + v1 * 0x1000 + v2 * 0x40 + v3)[..|chunk| - 1])
  }

  function BytesOf(n: nat): (b: Bytes)
    requires n < 0x100_0000
    ensures |b| == 3
  {
    [n / 0x1_0000, n / 0x100 % 256, n % 256]
  }

  function DecodeLetters(s: string): Option<Bytes> {
    if s == "" then Some([])
    else if |s| <= 4 then ChunkBytes(s)
    else
      var first :- ChunkBytes(s[..4]);
      var rest :- DecodeLetters(s[4..]);
      Some(first + rest)
  }

  function Decode(s: string): Option<Bytes> {
    DecodeLetters(Trim(s))
  }

  // ---------------------------------------------------------------- shifts as divisions

  lemma Split6(n: nat, q: nat, r: nat)
    requires n == q * 0x40 + r && r < 0x40
    ensures n / 0x40 == q && n % 0x40 == r
  {
  }

  lemma Split8(n: nat, q: nat, r: nat)
    requires n == q * 0x100 + r && r < 0x100
    ensures n / 0x100 == q && n % 0x100 == r
  {
  }

  lemma Split12(n: nat, q: nat, r: nat)
    requires n == q * 0x1000 + r && r < 0x1000
    ensures n / 0x1000 == q && n % 0x1000 == r
  {
  }

  lemma Split16(n: nat, q: nat, r: nat)
    requires n == q * 0x1_0000 + r && r < 0x1_0000
    ensures n / 0x1_0000 == q && n % 0x1_0000 == r
  {
  }

  lemma Split18(n: nat, q: nat, r: nat)
    requires n == q * 0x4_0000 + r && r < 0x4_0000
    ensures n / 0x4_0000 == q && n % 0x4_0000 == r
  {
  }

  // ---------------------------------------------------------------- decoding what was encoded

  lemma SextetsOfGroup(v0: nat, v1: nat, v2: nat, v3: nat)
    requires v0 < 64 && v1 < 64 && v2 < 64 && v3 < 64
    ensures
      var n := v0 * 0x4_0000 + v1 * 0x1000 + v2 * 0x40 + v3;
      n < 0x100_0000 && Sextet(n, 0) == v0 && Sextet(n, 1) == v1 && Sextet(n, 2) == v2 && Sextet(n, 3) == v3
  {
    var n := v0 * 0x4_0000 + v1 * 0x1000 + v2 * 0x40 + v3;
    Split18(n, v0, v1 * 0x1000 + v2 * 0x40 + v3);
    Split12(n, v0 * 0x40 + v1, v2 * 0x40 + v3);
    Split6(v0 * 0x40 + v1, v0, v1);
    Split6(n, v0 * 0x1000 + v1 * 0x40 + v2, v3);
    Split6(v0 * 0x1000 + v1 * 0x40 + v2, v0 * 0x40 + v1, v2);
  }

  lemma GroupOfSextets(n: nat)
    requires n < 0x100_0000
    ensures Sextet(n, 0) * 0x4_0000 + Sextet(n, 1) * 0x1000 + Sextet(n, 2) * 0x40 + Sextet(n, 3) == n
  {
    var q1, v3 := n / 0x40, n % 0x40;
    var q2, v2 := q1 / 0x40, q1 % 0x40;
    var v0, v1 := q2 / 0x40, q2 % 0x40;
    SextetsOfGroup(v0, v1, v2, v3);
  }

  lemma GroupParts(b0: Byte, b1: Byte, b2: Byte)
    ensures
      var n := Group(b0, b1, b2);
      n < 0x100_0000 && n / 0x1_0000 == b0 && n / 0x100 == b0 * 0x100 + b1 && n % 0x100 == b2
  {
    var n := Group(b0, b1, b2);
    Split16(n, b0, b1 * 0x100 + b2);
    Split8(n, b0 * 0x100 + b1, b2);
  }

  lemma BytesOfGroup(b0: Byte, b1: Byte, b2: Byte)
    ensures Group(b0, b1, b2) < 0x100_0000 && BytesOf(Group(b0, b1, b2)) == [b0, b1, b2]
  {
    hide Group;
    GroupParts(b0, b1, b2);
    Split8(b0 * 0x100 + b1, b0, b1);
  }

  lemma GroupOfBytes(n: nat)
    requires n < 0x100_0000
    ensures Group(BytesOf(n)[0], BytesOf(n)[1], BytesOf(n)[2]) == n
    ensures n % 0x1_0000 == 0 <==> BytesOf(n)[1] == BytesOf(n)[2] == 0
    ensures n % 0x100 == 0 <==> BytesOf(n)[2] == 0
  {
    var q, b2 := n / 0x100, n % 0x100;
    var b0, b1 := q / 0x100, q % 0x100;
    BytesOfGroup(b0, b1, b2);
    Split16(n, b0, b1 * 0x100 + b2);
  }

  /** A chunk of one or two bytes leaves its last sextets zero. */
  lemma OneByteGroup(b0: Byte)
    ensures Sextet(Group(b0, 0, 0), 1) % 16 == 0 && Sextet(Group(b0, 0, 0), 2) == 0 && Sextet(Group(b0, 0, 0), 3) == 0
  {
    hide Sextet;
    var q, r := b0 / 4, b0 % 4;
    SextetsOfGroup(q, r * 16, 0, 0);
    assert Group(b0, 0, 0) == q * 0x4_0000 + r * 16 * 0x1000;
  }

  lemma TwoByteGroup(b0: Byte, b1: Byte)
    ensures Sextet(Group(b0, b1, 0), 2) % 4 == 0 && Sextet(Group(b0, b1, 0), 3) == 0
  {
    hide Sextet;
    var q, r, q1, r1 := b0 / 4, b0 % 4, b1 / 16, b1 % 16;
    SextetsOfGroup(q, r * 16 + q1, r1 * 4, 0);
    assert Group(b0, b1, 0) == q * 0x4_0000 + (r * 16 + q1) * 0x1000 + r1 * 4 * 0x40;
  }

  lemma ShortGroups(b0: Byte, b1: Byte)
    ensures Sextet(Group(b0, 0, 0), 2) == 0 && Sextet(Group(b0, 0, 0), 3) == 0 && Sextet(Group(b0, b1, 0), 3) == 0
    ensures Sextet(Group(b0, 0, 0), 1) % 16 == 0 && Sextet(Group(b0, b1, 0), 2) % 4 == 0
  {
    hide Sextet, Group;
    OneByteGroup(b0);
    TwoByteGroup(b0, b1);
  }

  lemma ChunkRoundTrip(chunk: Bytes)
    requires 1 <= |chunk| <= 3
    ensures ChunkBytes(ChunkLetters(chunk)) == Some(chunk)
  {
    LettersHaveValues();
    hide Letter, Value, Sextet, BytesOf, Group;
    var b1: Byte := if |chunk| > 1 then chunk[1] else 0;
    var b2: Byte := if |chunk| > 2 then chunk[2] else 0;
    BytesOfGroup(chunk[0], b1, b2);
    GroupOfSextets(Group(chunk[0], b1, b2));
    ShortGroups(chunk[0], b1);
    var letters, n := ChunkLetters(chunk), Group(chunk[0], b1, b2);
    assert forall i | 0 <= i < 4 :: ValueAt(letters, i) == Some(Sextet(n, i));
    assert [chunk[0], b1, b2][..|chunk|] == chunk;
  }

  lemma {:induction false} LettersRoundTrip(data: Bytes)
    ensures DecodeLetters(Letters(data)) == Some(data)
    ensures |Letters(data)| == |data| + (|data| + 2) / 3
  {
    hide ChunkLetters, ChunkBytes;
    if data != [] {
      if |data| < 3 {
        ChunkRoundTrip(data);
      } else {
        ChunkRoundTrip(data[..3]);
        LettersRoundTrip(data[3..]);
        var first, rest := ChunkLetters(data[..3]), Letters(data[3..]);
        assert (first + rest)[..4] == first && (first + rest)[4..] == rest;
        assert data == data[..3] + data[3..];
        if data[3..] == [] {
          assert first + rest == first && data[..3] == data;
        }
      }
    }
  }

  lemma {:induction false} NoPaddingInside(data: Bytes)
    ensures '=' !in Letters(data)
  {
    LettersHaveValues();
    hide Letter, Sextet, Group;
    if |data| >= 3 { NoPaddingInside(data[3..]); }
  }

  lemma TrimOne(s: string)
    ensures Trim(s + "=") == Trim(s)
  {
    assert (s + "=")[..|s|] == s;
  }

  lemma TrimPadding(letters: string, n: nat)
    requires letters == "" || letters[|letters| - 1] != '='
    ensures Trim(letters + Padding(n)) == letters
  {
    assert Trim(letters) == letters;
    hide Trim;
    TrimOne(letters);
    TrimOne(letters + "=");
    assert (letters + "=") + "=" == letters + "==" && letters + "" == letters;
  }

  /** Decoding an encoding gives the bytes back, and its length is four letters for every
      three bytes begun. */
  lemma EncodingRoundTrips(data: Bytes)
    ensures Decode(Encode(data)) == Some(data)
    ensures |Encode(data)| == 4 * ((|data| + 2) / 3)
  {
    hide Letters, DecodeLetters, Trim;
    LettersRoundTrip(data);
    NoPaddingInside(data);
    TrimPadding(Letters(data), |data|);
  }

  // ---------------------------------------------------------------- encoding what was decoded

  lemma GroupSextets(b0: Byte, b1: Byte, b2: Byte)
    ensures
      var n := Group(b0, b1, b2);
      Sextet(n, 0) == b0 / 4 && Sextet(n, 1) == b0 % 4 * 16 + b1 / 16 && Sextet(n, 2) == b1 % 16 * 4 + b2 / 64 &&
      Sextet(n, 3) == b2 % 64
  {
    hide Sextet;
    var q0, r0, q1, r1, q2, r2 := b0 / 4, b0 % 4, b1 / 16, b1 % 16, b2 / 64, b2 % 64;
    SextetsOfGroup(q0, r0 * 16 + q1, r1 * 4 + q2, r2);
    assert Group(b0, b1, b2) == q0 * 0x4_0000 + (r0 * 16 + q1) * 0x1000 + (r1 * 4 + q2) * 0x40 + r2;
  }

  /** The letters are the bytes read six bits at a time, the first bits first, with zero bits
      at the end and a padding of full fours. */
  lemma EncodesBits(chunk: Bytes)
    requires 1 <= |chunk| <= 3
    ensures
      var b0, b1, b2 := chunk[0], if |chunk| > 1 then chunk[1] else 0, if |chunk| > 2 then chunk[2] else 0;
      Encode(chunk) ==
      [Letter(b0 / 4), Letter(b0 % 4 * 16 + b1 / 16)] +
      (if |chunk| > 1 then [Letter(b1 % 16 * 4 + b2 / 64)] else "=") +
      (if |chunk| > 2 then [Letter(b2 % 64)] else "=")
  {
    hide Letter, Sextet, Group;
    GroupSextets(chunk[0], if |chunk| > 1 then chunk[1] else 0, if |chunk| > 2 then chunk[2] else 0);
    if |chunk| == 3 {
      assert chunk[..3] == chunk && chunk[3..] == [];
      assert Letters([]) == "" && Padding(3) == "";
      assert Letters(chunk) == ChunkLetters(chunk[..3]) + Letters(chunk[3..]) == ChunkLetters(chunk);
    }
    assert "==" == "=" + "=";
  }

  /** Three bytes at a time. */
  lemma EncodesChunks(data: Bytes)
    requires |data| > 3
    ensures Encode(data) == Encode(data[..3]) + Encode(data[3..])
  {
    hide ChunkLetters;
    var first := data[..3];
    assert first[..3] == first && first[3..] == [];
    assert Letters(first) == ChunkLetters(first) + "" && Padding(3) == "";
    assert Padding(|data|) == Padding(|data[3..]|);
  }

  predicate InAlphabet(s: string) { forall c | c in s :: Value(c).Some? }

  lemma ChunkDecodesIff(chunk: string)
    requires 1 <= |chunk| <= 4
    ensures ChunkBytes(chunk).Some? <==> InAlphabet(chunk) && |chunk| != 1
  {
    hide Value, BytesOf;
    assert ValueAt(chunk, 0).Some? && ValueAt(chunk, 1).Some? && ValueAt(chunk, 2).Some? && ValueAt(chunk, 3).Some? <==>
           forall i | 0 <= i < |chunk| :: Value(chunk[i]).Some?;
  }

  /** Exactly these strings decode. */
  lemma {:induction false} DecodesIff(s: string)
    ensures DecodeLetters(s).Some? <==> InAlphabet(s) && |s| % 4 != 1
  {
    hide Value, ChunkBytes;
    if s != "" {
      if |s| <= 4 {
        ChunkDecodesIff(s);
      } else {
        ChunkDecodesIff(s[..4]);
        DecodesIff(s[4..]);
        assert s == s[..4] + s[4..];
      }
    }
  }

  /** The bits of the last letter that encode nothing are zero. */
  predicate SpareBitsAreZero(t: string)
    requires InAlphabet(t)
  {
    (|t| % 4 == 2 ==> Value(t[|t| - 1]).value % 16 == 0) && (|t| % 4 == 3 ==> Value(t[|t| - 1]).value % 4 == 0)
  }

  /** As much padding as fills the last four letters, and no spare bits set. */
  predicate Canonical(s: string)
    requires InAlphabet(Trim(s))
  {
    s == Trim(s) + (if |Trim(s)| % 4 == 2 then "==" else if |Trim(s)| % 4 == 3 then "=" else "") &&
    SpareBitsAreZero(Trim(s))
  }

  lemma OneByteOf(v0: nat, v1: nat)
    requires v0 < 64 && v1 < 64 && v1 % 16 == 0
    ensures v0 * 0x4_0000 + v1 * 0x1000 < 0x100_0000
    ensures BytesOf(v0 * 0x4_0000 + v1 * 0x1000) == [v0 * 4 + v1 / 16, 0, 0]
  {
    hide BytesOf;
    var q := v1 / 16;
    assert v1 == q * 16;
    BytesOfGroup(v0 * 4 + q, 0, 0);
  }

  lemma TwoBytesOf(v0: nat, v1: nat, v2: nat)
    requires v0 < 64 && v1 < 64 && v2 < 64 && v2 % 4 == 0
    ensures v0 * 0x4_0000 + v1 * 0x1000 + v2 * 0x40 < 0x100_0000
    ensures BytesOf(v0 * 0x4_0000 + v1 * 0x1000 + v2 * 0x40) == [v0 * 4 + v1 / 16, v1 % 16 * 16 + v2 / 4, 0]
  {
    hide BytesOf;
    var q, r, q2 := v1 / 16, v1 % 16, v2 / 4;
    assert v1 == q * 16 + r && v2 == q2 * 4;
    BytesOfGroup(v0 * 4 + q, r * 16 + q2, 0);
  }

  /** Four sextets whose last ones are zero are the group of the bytes they make. */
  lemma ChunkOfValues(v0: nat, v1: nat, v2: nat, v3: nat, k: nat)
    requires v0 < 64 && v1 < 64 && v2 < 64 && v3 < 64 && 1 <= k <= 3
    requires (k < 3 ==> v3 == 0) && (k == 2 ==> v2 % 4 == 0) && (k == 1 ==> v2 == 0 && v1 % 16 == 0)
    ensures
      var n := v0 * 0x4_0000 + v1 * 0x1000 + v2 * 0x40 + v3;
      n < 0x100_0000 &&
      var b := BytesOf(n);
      Group(b[0], if k > 1 then b[1] else 0, if k > 2 then b[2] else 0) == n
  {
    hide BytesOf, Group;
    var n := v0 * 0x4_0000 + v1 * 0x1000 + v2 * 0x40 + v3;
    GroupOfBytes(n);
    if k == 1 { OneByteOf(v0, v1); }
    if k == 2 { TwoBytesOf(v0, v1, v2); }
  }

  lemma ChunkCanonical(chunk: string)
    requires 2 <= |chunk| <= 4 && InAlphabet(chunk)
    ensures ChunkBytes(chunk).Some?
    ensures SpareBitsAreZero(chunk) ==> ChunkLetters(ChunkBytes(chunk).value) == chunk
  {
    hide Letter, Value, Sextet, BytesOf, Group;
    assert forall i | 0 <= i < |chunk| :: chunk[i] in chunk && Value(chunk[i]).Some?;
    var v0, v1 := ValueAt(chunk, 0).value, ValueAt(chunk, 1).value;
    var v2, v3 := ValueAt(chunk, 2).value, ValueAt(chunk, 3).value;
    SextetsOfGroup(v0, v1, v2, v3);
    if SpareBitsAreZero(chunk) {
      ChunkOfValues(v0, v1, v2, v3, |chunk| - 1);
      ValueHasLetter(chunk[0]);
      ValueHasLetter(chunk[1]);
      if |chunk| > 2 { ValueHasLetter(chunk[2]); }
      if |chunk| > 3 { ValueHasLetter(chunk[3]); }
    }
  }

  lemma AlphabetParts(a: string, b: string)
    requires InAlphabet(a + b)
    ensures InAlphabet(a) && InAlphabet(b)
  {
    hide Value;
    forall c | c in a || c in b ensures Value(c).Some? { assert c in a + b; }
  }

  lemma ThreeQuarters(n: nat)
    requires n >= 4
    ensures n * 3 / 4 == 3 + (n - 4) * 3 / 4 && n % 4 == (n - 4) % 4
  {
  }

  lemma SpareBitsOfRest(first: string, rest: string)
    requires |first| == 4 && rest != "" && InAlphabet(rest) && InAlphabet(first + rest)
    ensures SpareBitsAreZero(first + rest) <==> SpareBitsAreZero(rest)
    ensures SpareBitsAreZero(first)
  {
    hide Value, InAlphabet;
    ThreeQuarters(|first + rest|);
  }

  lemma ShortLettersOfDecoded(t: string)
    requires InAlphabet(t) && 2 <= |t| <= 4
    ensures DecodeLetters(t).Some? && |DecodeLetters(t).value| == |t| - 1
    ensures SpareBitsAreZero(t) ==> Letters(DecodeLetters(t).value) == t
  {
    hide Value, ChunkLetters, ChunkBytes, InAlphabet, SpareBitsAreZero;
    ChunkCanonical(t);
    var b := ChunkBytes(t).value;
    assert b[..|b|] == b && b[|b|..] == [] && ChunkLetters(b) + "" == ChunkLetters(b);
  }

  lemma {:induction false} LettersOfDecoded(t: string)
    requires InAlphabet(t) && |t| % 4 != 1
    ensures DecodeLetters(t).Some? && |DecodeLetters(t).value| == |t| * 3 / 4
    ensures SpareBitsAreZero(t) ==> Letters(DecodeLetters(t).value) == t
  {
    hide Value, ChunkBytes, ChunkLetters, InAlphabet, SpareBitsAreZero;
    if t == "" {
    } else if |t| <= 4 {
      ShortLettersOfDecoded(t);
    } else {
      var first, rest := t[..4], t[4..];
      assert t == first + rest;
      AlphabetParts(first, rest);
      SpareBitsOfRest(first, rest);
      ThreeQuarters(|t|);
      ChunkCanonical(first);
      LettersOfDecoded(rest);
      var a, b := ChunkBytes(first).value, DecodeLetters(rest).value;
      assert (a + b)[..3] == a && (a + b)[3..] == b;
    }
  }

  /** Encodings are canonical. */
  lemma EncodingIsCanonical(data: Bytes)
    ensures InAlphabet(Trim(Encode(data))) && Canonical(Encode(data))
  {
    hide Letters, DecodeLetters, Trim, Padding, SpareBitsAreZero, Value;
    LettersRoundTrip(data);
    NoPaddingInside(data);
    TrimPadding(Letters(data), |data|);
    DecodesIff(Letters(data));
    LettersSpareBits(data);
    PaddingByBytes(|data|);
  }

  lemma ThirdsBegun(q: nat, r: nat)
    requires r < 3
    ensures (q * 3 + r + 2) / 3 == if r == 0 then q else q + 1
  {
  }

  lemma LastQuarter(q: nat, r: nat)
    requires r < 4
    ensures (q * 4 + r) % 4 == r
  {
  }

  lemma PaddingByBytes(n: nat)
    ensures
      var letters := n + (n + 2) / 3;
      Padding(n) == if letters % 4 == 2 then "==" else if letters % 4 == 3 then "=" else ""
  {
    var q, r := n / 3, n % 3;
    assert n == q * 3 + r;
    ThirdsBegun(q, r);
    LastQuarter(q, if r == 0 then 0 else r + 1);
    assert n + (n + 2) / 3 == if r == 0 then q * 4 else q * 4 + r + 1;
  }

  lemma {:induction false} LettersSpareBits(data: Bytes)
    requires InAlphabet(Letters(data))
    ensures SpareBitsAreZero(Letters(data))
  {
    LettersHaveValues();
    hide Letter, Value, Sextet, Group;
    if 1 <= |data| < 3 {
      ShortGroups(data[0], if |data| > 1 then data[1] else 0);
    } else if data != [] {
      var first, rest := ChunkLetters(data[..3]), Letters(data[3..]);
      assert Letters(data) == first + rest && forall c | c in rest :: c in first + rest;
      LettersSpareBits(data[3..]);
    }
  }

  /** How much padding a text needs shows in its letters as in its bytes. */
  lemma PaddingByLetters(t: string)
    requires |t| % 4 != 1
    ensures Padding(|t| * 3 / 4) == if |t| % 4 == 2 then "==" else if |t| % 4 == 3 then "=" else ""
  {
    var q, r := |t| / 4, |t| % 4;
    assert |t| * 3 / 4 == q * 3 + r * 3 / 4;
  }

  /** A string that decodes is the encoding of what it decodes to exactly when it is
      canonical; so two canonical strings never decode alike. */
  lemma DecodingRoundTripsIff(s: string)
    requires Decode(s).Some?
    ensures InAlphabet(Trim(s))
    ensures Encode(Decode(s).value) == s <==> Canonical(s)
  {
    hide Letters, DecodeLetters, Trim, SpareBitsAreZero, Value;
    var t := Trim(s);
    DecodesIff(t);
    LettersOfDecoded(t);
    EncodingIsCanonical(Decode(s).value);
    PaddingByLetters(t);
  }

  // ---------------------------------------------------------------- the methods

  method B64Encode(data: Bytes) returns (out: string)
    ensures out == Encode(data)
  {
    hide Encode, Letter, Group, Sextet, ChunkLetters, Padding;
    out := "";
    var pos := 0;
    NothingEncoded();
    assert data[0..] == data;
    while pos < |data|
      invariant pos <= |data|
      invariant out + Encode(data[pos..]) == Encode(data)
      decreases |data| - pos
    {
      var end := if pos + 3 <= |data| then pos + 3 else |data|;
      var chunk := data[pos..end];
      EncodeChunk(data[pos..]);
      assert data[pos..][|chunk|..] == data[end..] && data[pos..][..|chunk|] == chunk;
      PaddedChunk(chunk);
      var n := Group(chunk[0], if |chunk| > 1 then chunk[1] else 0, if |chunk| > 2 then chunk[2] else 0);
      var four := [Letter(Sextet(n, 0))];
      four := four + [Letter(Sextet(n, 1))];
      four := four + [if |chunk| > 1 then Letter(Sextet(n, 2)) else '='];
      four := four + [if |chunk| > 2 then Letter(Sextet(n, 3)) else '='];
      assert out + (four + Encode(data[end..])) == (out + four) + Encode(data[end..]);
      out := out + four;
      pos := end;
    }
    assert data[pos..] == [] && out + "" == out;
  }

  lemma NothingEncoded()
    ensures Encode([]) == ""
  {
  }

  lemma PaddedChunk(chunk: Bytes)
    requires 1 <= |chunk| <= 3
    ensures
      var n := Group(chunk[0], if |chunk| > 1 then chunk[1] else 0, if |chunk| > 2 then chunk[2] else 0);
      ChunkLetters(chunk) + Padding(|chunk|) ==
      [Letter(Sextet(n, 0)), Letter(Sextet(n, 1)), if |chunk| > 1 then Letter(Sextet(n, 2)) else '=',
       if |chunk| > 2 then Letter(Sextet(n, 3)) else '=']
  {
    hide Letter, Sextet, Group;
  }

  lemma EncodeChunk(data: Bytes)
    requires data != []
    ensures
      var k := if |data| < 3 then |data| else 3;
      Encode(data) == (ChunkLetters(data[..k]) + Padding(k)) + Encode(data[k..])
  {
    hide ChunkLetters;
    if |data| < 3 {
      assert data[..|data|] == data && data[|data|..] == [];
    } else {
      assert |data[3..]| % 3 == |data| % 3;
    }
  }

  /** What was decoded so far, before what the rest decodes to. */
  function After(out: Bytes, rest: Option<Bytes>): Option<Bytes> {
    match rest case Some(b) => Some(out + b) case None => None
  }

  lemma AfterLaws(a: Bytes, b: Bytes, rest: Option<Bytes>)
    ensures After([], rest) == rest && After(a, After(b, rest)) == After(a + b, rest)
  {
    if rest.Some? { assert [] + rest.value == rest.value && (a + b) + rest.value == a + (b + rest.value); }
  }

  method B64Decode(s: string) returns (r: Option<Bytes>)
    ensures r == Decode(s)
  {
    hide Value, Trim, BytesOf, ChunkBytes, DecodeLetters, After;
    var t := Trim(s);
    var out: Bytes := [];
    var pos := 0;
    AfterLaws([], [], DecodeLetters(t));
    assert t[0..] == t;
    while pos < |t|
      invariant pos <= |t|
      invariant DecodeLetters(t) == After(out, DecodeLetters(t[pos..]))
      decreases |t| - pos
    {
      var end := if pos + 4 <= |t| then pos + 4 else |t|;
      var chunk := t[pos..end];
      DecodeChunk(t[pos..]);
      assert t[pos..][..|chunk|] == chunk && t[pos..][|chunk|..] == t[end..];
      var bytes := ReadChunk(chunk);
      if bytes.None? {
        AfterNothing(out);
        return None;
      }
      AfterLaws(out, bytes.value, DecodeLetters(t[end..]));
      out := out + bytes.value;
      pos := end;
    }
    assert t[pos..] == "";
    AfterAll(out);
    return Some(out);
  }

  lemma AfterNothing(out: Bytes)
    ensures After(out, None) == None
  {
  }

  lemma AfterAll(out: Bytes)
    ensures After(out, DecodeLetters("")) == Some(out)
  {
    assert out + [] == out;
  }

  lemma DecodeChunk(t: string)
    requires t != ""
    ensures
      var k := if |t| < 4 then |t| else 4;
      DecodeLetters(t) ==
      if ChunkBytes(t[..k]).None? then None else After(ChunkBytes(t[..k]).value, DecodeLetters(t[k..]))
  {
    hide ChunkBytes;
    if |t| <= 4 {
      assert t[..|t|] == t && t[|t|..] == "";
      if ChunkBytes(t).Some? { assert ChunkBytes(t).value + [] == ChunkBytes(t).value; }
    }
  }

  /** The value of a chunk's first letters. */
  ghost function SumUpto(chunk: string, i: nat): (n: nat)
    requires i <= |chunk| <= 4 && forall j | 0 <= j < i :: Value(chunk[j]).Some?
    ensures n < 0x100_0000
  {
    (if i > 0 then Value(chunk[0]).value * 0x4_0000 else 0) + (if i > 1 then Value(chunk[1]).value * 0x1000 else 0) +
    (if i > 2 then Value(chunk[2]).value * 0x40 else 0) + (if i > 3 then Value(chunk[3]).value else 0)
  }

  /** The inner loop: the letters of a chunk, six bits at a time. */
  method ReadChunk(chunk: string) returns (r: Option<Bytes>)
    requires 1 <= |chunk| <= 4
    ensures r == ChunkBytes(chunk)
  {
    hide Value, BytesOf;
    if |chunk| == 1 { return None; }
    var n := 0;
    for i := 0 to |chunk|
      invariant forall j | 0 <= j < i :: Value(chunk[j]).Some?
      invariant n == SumUpto(chunk, i)
    {
      var v := Value(chunk[i]);
      if v.None? { return None; }
      n := n + v.value * (if i == 0 then 0x4_0000 else if i == 1 then 0x1000 else if i == 2 then 0x40 else 1);
    }
    var b := BytesOf(n);
    var out := [b[0]];
    if |chunk| > 2 { out := out + [b[1]]; }
    if |chunk| > 3 { out := out + [b[2]]; }
    assert out == b[..|chunk| - 1];
    return Some(out);
  }
}
