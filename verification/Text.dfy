/** Bytes, little-endian integers, hexadecimal and UTF-8: the views of data that the
    blob image, the wire encoder and the catalog hash share. A Rust `String` is a Dafny
    `string` (a sequence of Unicode scalar values); `as_bytes` is `Utf8`. */
module Text {
  datatype Option<+T> = None | Some(value: T) {
    predicate IsFailure() { None? }

    function PropagateFailure<U>(): Option<U>
      requires None?
    {
      None
    }

    function Extract(): T
      requires Some?
    {
      value
    }

    function GetOr(default: T): T {
      if Some? then value else default
    }
  }

  type Byte = b: int | 0 <= b < 256
  type Bytes = seq<Byte>

  const U64: nat := 0x1_0000_0000_0000_0000
  const U32: nat := 0x1_0000_0000

  /** `x` sits in `buf` at offset `pos`. */
  predicate At(buf: Bytes, pos: nat, x: Bytes) {
    pos + |x| <= |buf| && buf[pos..pos + |x|] == x
  }

  lemma SliceOfSlice(buf: Bytes, start: nat, n: nat, lo: nat, hi: nat)
    requires lo <= hi <= n && start + n <= |buf|
    ensures buf[start..start + n][lo..hi] == buf[start + lo..start + hi]
  {
    var outer := buf[start..start + n];
    assert forall k | lo <= k < hi :: outer[k] == buf[start + k];
    assert outer[lo..hi] == buf[start + lo..start + hi];
  }

  lemma AtSplit(buf: Bytes, pos: nat, x: Bytes, y: Bytes)
    requires At(buf, pos, x + y)
    ensures At(buf, pos, x) && At(buf, pos + |x|, y)
  {
    var whole := buf[pos..pos + |x + y|];
    assert whole[..|x|] == x && whole[|x|..] == y;
    assert buf[pos..pos + |x|] == whole[..|x|];
    assert buf[pos + |x|..pos + |x| + |y|] == whole[|x|..];
  }

  // ---------------------------------------------------------------- names

  predicate HasPrefix(s: string, p: string) { |p| <= |s| && s[..|p|] == p }

  lemma PrefixChain(s: string, p: string, q: string)
    requires HasPrefix(s, p) && HasPrefix(p, q)
    ensures HasPrefix(s, q)
  {
    assert s[..|q|] == s[..|p|][..|q|];
  }

  predicate HasSuffix(s: string, t: string) { |t| <= |s| && s[|s| - |t|..] == t }

  /** Two names free of a separator, each in front of it at the same place, are one name. */
  lemma SeparatedHead(s: string, front: string, a: string, b: string, sep: char)
    requires sep !in a && sep !in b
    requires HasPrefix(s, front + a + [sep]) && HasPrefix(s, front + b + [sep])
    ensures a == b
  {
    var n := |front|;
    assert s[n + |a|] == sep && s[n + |b|] == sep;
    assert forall k | 0 <= k < |a| :: s[n + k] == a[k];
    assert forall k | 0 <= k < |b| :: s[n + k] == b[k];
  }

  // ---------------------------------------------------------------- integers

  /** `n` bytes, least significant first. */
  function LittleEndian(v: nat, n: nat): (r: Bytes)
    ensures |r| == n
  {
    if n == 0 then [] else [v % 256] + LittleEndian(v / 256, n - 1)
  }

  function FromLittleEndian(b: Bytes): nat {
    if b == [] then 0 else b[0] + 256 * FromLittleEndian(b[1..])
  }

  function Pow256(n: nat): (r: nat)
    ensures r >= 1
  {
    if n == 0 then 1 else 256 * Pow256(n - 1)
  }

  lemma {:induction false} LittleEndianRoundTrip(v: nat, n: nat)
    requires v < Pow256(n)
    ensures FromLittleEndian(LittleEndian(v, n)) == v
  {
    if n > 0 {
      LittleEndianRoundTrip(v / 256, n - 1);
      assert LittleEndian(v, n)[1..] == LittleEndian(v / 256, n - 1);
    }
  }

  /** `n` bytes, most significant first. */
  function BigEndianBytes(v: nat, n: nat): (r: Bytes)
    ensures |r| == n
  {
    if n == 0 then [] else BigEndianBytes(v / 256, n - 1) + [v % 256]
  }

  function BigEndian(b: Bytes): (r: nat)
    ensures r < Pow256(|b|)
  {
    if b == [] then 0 else BigEndian(b[..|b| - 1]) * 256 + b[|b| - 1]
  }

  lemma {:induction false} BigEndianRoundTrip(v: nat, n: nat)
    requires v < Pow256(n)
    ensures BigEndian(BigEndianBytes(v, n)) == v
  {
    if n > 0 {
      BigEndianRoundTrip(v / 256, n - 1);
      assert BigEndianBytes(v, n)[..n - 1] == BigEndianBytes(v / 256, n - 1);
    }
  }

  // ---------------------------------------------------------------- hexadecimal

  function HexDigit(n: int): (c: char)
    requires 0 <= n < 16
    ensures c in "0123456789abcdef"
  {
    "0123456789abcdef"[n]
  }

  function Hex(b: Bytes): (s: string)
    ensures |s| == 2 * |b|
    ensures forall c :: c in s ==> c in "0123456789abcdef"
  {
    if b == [] then "" else [HexDigit(b[0] / 16), HexDigit(b[0] % 16)] + Hex(b[1..])
  }

  /** Two digits a byte, the upper half first. */
  lemma {:induction false} HexAt(b: Bytes, i: nat)
    requires i < |b|
    ensures Hex(b)[2 * i] == HexDigit(b[i] / 16) && Hex(b)[2 * i + 1] == HexDigit(b[i] % 16)
  {
    hide HexDigit;
    HexStep(b[0], b[1..]);
    assert b == [b[0]] + b[1..];
    if i > 0 {
      HexAt(b[1..], i - 1);
      assert Hex(b)[2..][2 * (i - 1)] == Hex(b)[2 * i] && Hex(b)[2..][2 * i - 1] == Hex(b)[2 * i + 1];
    }
  }

  lemma HexStep(first: Byte, rest: Bytes)
    ensures
      var h := Hex([first] + rest);
      h[0] == HexDigit(first / 16) && h[1] == HexDigit(first % 16) && h[2..] == Hex(rest)
  {
    hide HexDigit;
    assert ([first] + rest)[1..] == rest;
  }

  // ---------------------------------------------------------------- UTF-8

  function EncodeChar(c: char): (r: Bytes)
    ensures 1 <= |r| <= 4
  {
    var n := c as int;
    if n < 0x80 then [n]
    else if n < 0x800 then [0xC0 + n / 64, 0x80 + n % 64]
    else if n < 0x1_0000 then [0xE0 + n / 64 / 64, 0x80 + n / 64 % 64, 0x80 + n % 64]
    else [0xF0 + n / 64 / 64 / 64, 0x80 + n / 64 / 64 % 64, 0x80 + n / 64 % 64, 0x80 + n % 64]
  }

  function Utf8(s: string): Bytes {
    if s == "" then [] else EncodeChar(s[0]) + Utf8(s[1..])
  }

  predicate Continuation(b: Bytes, i: nat) {
    i < |b| && 0x80 <= b[i] < 0xC0
  }

  /** The scalar value at the front of `b` and its width, if `b` starts with a well-formed
      sequence (no overlong form, no surrogate, nothing above U+10FFFF). */
  function DecodeChar(b: Bytes): (r: Option<(char, nat)>)
    requires b != []
    ensures r.Some? ==> 1 <= r.value.1 <= |b|
  {
    if b[0] < 0x80 then Some((b[0] as char, 1))
    else if 0xC2 <= b[0] < 0xE0 && Continuation(b, 1) then
      Some((((b[0] as int - 0xC0) * 64 + (b[1] as int - 0x80)) as char, 2))
    else if 0xE0 <= b[0] < 0xF0 && Continuation(b, 1) && Continuation(b, 2) then
      var n := (b[0] as int - 0xE0) * 4096 + (b[1] as int - 0x80) * 64 + (b[2] as int - 0x80);
      if 0x800 <= n && !(0xD800 <= n < 0xE000) then Some((n as char, 3)) else None
    else if 0xF0 <= b[0] < 0xF5 && Continuation(b, 1) && Continuation(b, 2) && Continuation(b, 3) then
      var n := (b[0] as int - 0xF0) * 262144 + (b[1] as int - 0x80) * 4096 + (b[2] as int - 0x80) * 64 +
               (b[3] as int - 0x80);
      if 0x1_0000 <= n < 0x11_0000 then Some((n as char, 4)) else None
    else None
  }

  /** How many bytes `from_utf8_lossy` replaces by one U+FFFD at an ill-formed position:
      the longest prefix that could still have become a character. */
  function IllFormedWidth(b: Bytes): (n: nat)
    requires b != []
    ensures 1 <= n <= |b|
  {
    var second :=
      Continuation(b, 1) &&
      ((b[0] == 0xE0 && 0xA0 <= b[1]) || (0xE1 <= b[0] < 0xF0 && (b[0] == 0xED ==> b[1] < 0xA0)) ||
       (b[0] == 0xF0 && 0x90 <= b[1]) || (0xF1 <= b[0] < 0xF4) || (b[0] == 0xF4 && b[1] < 0x90));
    if !second then 1
    else if b[0] >= 0xF0 && Continuation(b, 2) then 3
    else 2
  }

  /** `str::from_utf8(b).is_ok()`. */
  predicate ValidUtf8(b: Bytes) {
    b == [] || (DecodeChar(b).Some? && ValidUtf8(b[DecodeChar(b).value.1..]))
  }

  /** `String::from_utf8_lossy`. */
  function FromUtf8Lossy(b: Bytes): string {
    if b == [] then ""
    else match DecodeChar(b)
      case Some((c, n)) => [c] + FromUtf8Lossy(b[n..])
      case None => ['\U{FFFD}'] + FromUtf8Lossy(b[IllFormedWidth(b)..])
  }

  lemma DecodeEncodedChar(c: char, rest: Bytes)
    ensures DecodeChar(EncodeChar(c) + rest) == Some((c, |EncodeChar(c)|))
  {
    var n := c as int;
    if n < 0x80 {
    } else if n < 0x800 {
      assert EncodeChar(c) + rest == [0xC0 + n / 64, 0x80 + n % 64] + rest;
    } else if n < 0x1_0000 {
      assert EncodeChar(c) + rest == [0xE0 + n / 64 / 64, 0x80 + n / 64 % 64, 0x80 + n % 64] + rest;
    } else {
      DecodeWidest(c, rest);
    }
  }

  lemma DecodeWidest(c: char, rest: Bytes)
    requires 0x1_0000 <= c as int
    ensures DecodeChar(EncodeChar(c) + rest) == Some((c, 4))
  {
    var n := c as int;
    var n1, n2 := n / 64, n / 64 / 64;
    var n3 := n2 / 64;
    var b := EncodeChar(c) + rest;
    assert b[0] == 0xF0 + n3 && b[1] == 0x80 + n2 % 64 && b[2] == 0x80 + n1 % 64 && b[3] == 0x80 + n % 64;
    assert n == n1 * 64 + n % 64 && n1 == n2 * 64 + n1 % 64 && n2 == n3 * 64 + n2 % 64;
    assert n3 * 262144 + (n2 % 64) * 4096 + (n1 % 64) * 64 + n % 64 == n;
  }

  lemma {:induction false} Utf8RoundTrip(s: string)
    ensures ValidUtf8(Utf8(s)) && FromUtf8Lossy(Utf8(s)) == s
  {
    if s != "" {
      DecodeEncodedChar(s[0], Utf8(s[1..]));
      Utf8RoundTrip(s[1..]);
      assert Utf8(s)[|EncodeChar(s[0])|..] == Utf8(s[1..]);
    }
  }

  lemma {:induction false} Utf8NulFree(s: string)
    requires '\0' !in s
    ensures 0 !in Utf8(s)
  {
    if s != "" {
      Utf8NulFree(s[1..]);
      assert s[0] in s;
      assert 0 !in EncodeChar(s[0]);
    }
  }

  lemma {:induction false} Utf8Append(s: string, t: string)
    ensures Utf8(s + t) == Utf8(s) + Utf8(t)
  {
    if s == "" {
      assert s + t == t;
    } else {
      assert (s + t)[1..] == s[1..] + t;
      Utf8Append(s[1..], t);
    }
  }
}
