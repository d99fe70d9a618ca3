/** What the texts of a flow entry say: numbers, octets, addresses, networks, ports and
    flags, each as a relation between a text and the value it names. The parsers of
    `openflow_translate.rs` are shown to accept exactly these texts, with that value. */
module FieldTexts {
  import opened Text
  import opened Numerals
  import opened OpenFlow
  import opened FlowMatch

  // ---------------------------------------------------------------- numbers

  const LOWER_DIGITS := "0123456789abcdef"
  const UPPER_DIGITS := "0123456789ABCDEF"

  predicate IsDigit(c: char, d: nat) { d < 16 && (c == LOWER_DIGITS[d] || c == UPPER_DIGITS[d]) }

  function Power(radix: nat, n: nat): (r: nat)
    ensures radix > 0 ==> r > 0
  {
    if n == 0 then 1 else radix * Power(radix, n - 1)
  }

  /** The most significant digit comes first. */
  function Positional(digits: seq<nat>, radix: nat): nat {
    if digits == [] then 0 else digits[0] * Power(radix, |digits| - 1) + Positional(digits[1..], radix)
  }

  predicate Spells(s: string, digits: seq<nat>, radix: nat) {
    |s| == |digits| && forall i | 0 <= i < |s| :: digits[i] < radix && IsDigit(s[i], digits[i])
  }

  /** One digit or more, worth `n`. */
  ghost predicate Numeral(s: string, radix: nat, n: nat) {
    s != "" && exists digits :: Spells(s, digits, radix) && n == Positional(digits, radix)
  }

  /** A numeral, or one behind a `+`. */
  ghost predicate WritesNumber(s: string, radix: nat, n: nat) {
    Numeral(s, radix, n) || (s != "" && s[0] == '+' && Numeral(s[1..], radix, n))
  }

  lemma DigitIff(c: char, radix: nat, d: nat)
    requires radix <= 16
    ensures DigitOf(c, radix) == Some(d) <==> d < radix && IsDigit(c, d)
  {
    if 10 <= d < 16 {
      assert LOWER_DIGITS[d] == (d - 10 + 'a' as int) as char && UPPER_DIGITS[d] == (d - 10 + 'A' as int) as char;
    } else if d < 10 {
      assert LOWER_DIGITS[d] == UPPER_DIGITS[d] == (d + '0' as int) as char;
    }
  }

  lemma Distributed(a: nat, b: nat, c: nat)
    ensures (a + b) * c == a * c + b * c
  {
  }

  lemma Exchanged(a: nat, b: nat, c: nat)
    ensures a * (b * c) == a * c * b
  {
  }

  lemma PlacesShift(first: nat, rest: nat, d: nat, radix: nat, p: nat, q: nat)
    requires q == radix * p
    ensures first * q + (rest * radix + d) == (first * p + rest) * radix + d
  {
    Exchanged(first, radix, p);
    Distributed(first * p, rest, radix);
  }

  lemma MoreDigits(digits: seq<nat>, radix: nat)
    requires digits != []
    ensures Positional(digits, radix) == digits[0] * Power(radix, |digits| - 1) + Positional(digits[1..], radix)
    ensures Power(radix, |digits|) == radix * Power(radix, |digits| - 1)
  {
  }

  lemma OneDigit(d: nat, radix: nat)
    ensures Positional([] + [d], radix) == Positional([], radix) * radix + d
  {
    assert ([] + [d])[1..] == [] && Power(radix, 0) == 1;
  }

  lemma {:induction false} Horner(digits: seq<nat>, d: nat, radix: nat)
    ensures Positional(digits + [d], radix) == Positional(digits, radix) * radix + d
  {
    hide Positional, Power;
    var all := digits + [d];
    if digits == [] {
      OneDigit(d, radix);
    } else {
      assert all[1..] == digits[1..] + [d];
      Horner(digits[1..], d, radix);
      MoreDigits(digits, radix);
      MoreDigits(all, radix);
      PlacesShift(digits[0], Positional(digits[1..], radix), d, radix, Power(radix, |digits| - 1),
                  Power(radix, |digits|));
    }
  }

  lemma NoDigits(radix: nat)
    ensures Positional([], radix) == 0
  {
  }

  lemma {:induction false} SpelledDigits(s: string, digits: seq<nat>, radix: nat)
    requires radix <= 16 && Spells(s, digits, radix)
    ensures Digits(s, radix) == Some(Positional(digits, radix))
    decreases |s|
  {
    hide IsDigit, Positional;
    NoDigits(radix);
    if s != "" {
      var n := |s| - 1;
      SpelledDigits(s[..n], digits[..n], radix);
      DigitIff(s[n], radix, digits[n]);
      assert digits == digits[..n] + [digits[n]];
      Horner(digits[..n], digits[n], radix);
    }
  }

  lemma {:induction false} DigitsSpelled(s: string, radix: nat) returns (digits: seq<nat>)
    requires radix <= 16 && Digits(s, radix).Some?
    ensures Spells(s, digits, radix)
  {
    hide IsDigit;
    if s == "" {
      digits := [];
    } else {
      var n := |s| - 1;
      var before := DigitsSpelled(s[..n], radix);
      var last := DigitOf(s[n], radix).value;
      DigitIff(s[n], radix, last);
      digits := before + [last];
      assert s == s[..n] + [s[n]];
    }
  }

  lemma NumeralIff(s: string, radix: nat, n: nat)
    requires radix <= 16
    ensures Numeral(s, radix, n) <==> s != "" && Digits(s, radix) == Some(n)
  {
    hide Digits, Positional, Spells;
    if s != "" && Digits(s, radix) == Some(n) {
      var digits := DigitsSpelled(s, radix);
      SpelledDigits(s, digits, radix);
    }
    if Numeral(s, radix, n) {
      var digits :| Spells(s, digits, radix) && n == Positional(digits, radix);
      SpelledDigits(s, digits, radix);
    }
  }

  lemma NoSignInNumerals(s: string, radix: nat)
    requires radix <= 16 && s != "" && s[0] == '+'
    ensures forall n: nat :: !Numeral(s, radix, n)
  {
    hide Positional;
    forall n: nat ensures !Numeral(s, radix, n) {
      if Numeral(s, radix, n) {
        var digits :| Spells(s, digits, radix) && n == Positional(digits, radix);
        DigitIff(s[0], radix, digits[0]);
      }
    }
  }

  /** Rust's integer parsing accepts exactly the numbers below the limit. */
  lemma NumberIff(s: string, radix: nat, limit: nat, n: nat)
    requires radix <= 16
    ensures ParseUnsigned(s, radix, limit) == Some(n) <==> n < limit && WritesNumber(s, radix, n)
  {
    hide Numeral, Digits;
    NumeralIff(s, radix, n);
    if s != "" && s[0] == '+' {
      NoSignInNumerals(s, radix);
      NumeralIff(s[1..], radix, n);
    }
  }

  // ---------------------------------------------------------------- parts

  function Joined(parts: seq<string>, separator: char): string
    requires parts != []
  {
    if |parts| == 1 then parts[0] else parts[0] + [separator] + Joined(parts[1..], separator)
  }

  /** `split` gives exactly the parts that are free of the separator and join to the text. */
  lemma SplitIff(s: string, separator: char, parts: seq<string>)
    ensures Split(s, separator) == parts <==>
            parts != [] && s == Joined(parts, separator) && forall p | p in parts :: separator !in p
  {
    SplitJoins(s, separator);
    if parts != [] && s == Joined(parts, separator) && forall p | p in parts :: separator !in p {
      JoinedSplits(parts, separator);
    }
  }

  lemma {:induction false} SplitJoins(s: string, separator: char)
    ensures s == Joined(Split(s, separator), separator)
    ensures forall p | p in Split(s, separator) :: separator !in p
  {
    if s != "" {
      var rest := Split(s[1..], separator);
      SplitJoins(s[1..], separator);
      assert s == [s[0]] + s[1..];
      if s[0] == separator {
        assert ([""] + rest)[1..] == rest;
      } else {
        var first := [s[0]] + rest[0];
        assert ([first] + rest[1..])[1..] == rest[1..];
        assert rest[0] in rest && separator !in first;
      }
    }
  }

  lemma {:induction false} JoinedSplits(parts: seq<string>, separator: char)
    requires parts != [] && forall p | p in parts :: separator !in p
    ensures Split(Joined(parts, separator), separator) == parts
  {
    if |parts| == 1 {
      SplitWhole(parts[0], separator);
    } else {
      JoinedSplits(parts[1..], separator);
      SplitHead(parts[0], Joined(parts[1..], separator), separator);
      assert parts == [parts[0]] + parts[1..];
    }
  }

  lemma {:induction false} ParseAllIff(parts: seq<string>, parse: string -> Option<nat>, values: seq<nat>)
    ensures ParseAll(parts, parse) == Some(values) <==>
            |values| == |parts| && forall i | 0 <= i < |parts| :: parse(parts[i]) == Some(values[i])
    decreases |parts|
  {
    if parts != [] && values != [] {
      var n := |parts| - 1;
      ParseAllIff(parts[..n], parse, values[..|values| - 1]);
      assert values == values[..|values| - 1] + [values[|values| - 1]];
    }
    if parts != [] && ParseAll(parts, parse).Some? {
      var n := |parts| - 1;
      assert ParseAll(parts, parse).value != [];
    }
  }

  // ---------------------------------------------------------------- addresses

  /** Four decimals with dots between them. */
  function Dotted(octets: seq<nat>): string
    requires |octets| == 4
  {
    Decimal(octets[0]) + "." + Decimal(octets[1]) + "." + Decimal(octets[2]) + "." + Decimal(octets[3])
  }

  predicate AreOctets(octets: seq<nat>, n: nat) { |octets| == n && forall i | 0 <= i < n :: octets[i] < 256 }

  predicate NamesAddress(s: string, octets: seq<nat>) { AreOctets(octets, 4) && s == Dotted(octets) }

  /** An address of which the first `bits` bits count: after a slash, or all 32. */
  ghost predicate NamesNetwork(s: string, octets: seq<nat>, bits: nat) {
    (NamesAddress(s, octets) && bits == 32) ||
    (AreOctets(octets, 4) && bits < 256 &&
     exists length :: s == Dotted(octets) + "/" + length && WritesNumber(length, 10, bits))
  }

  /** Six numbers in hexadecimal with colons between them. */
  ghost predicate NamesMac(s: string, octets: seq<nat>) {
    AreOctets(octets, 6) &&
    exists parts :: |parts| == 6 && s == Joined(parts, ':') && AreHex(parts, octets)
  }

  ghost predicate AreHex(parts: seq<string>, values: seq<nat>) {
    |parts| == |values| && forall i | 0 <= i < |parts| :: WritesNumber(parts[i], 16, values[i])
  }

  lemma {:induction false} NoLeadingZero(s: string, n: nat)
    requires Digits(s, 10) == Some(n) && s != "" && (|s| == 1 || s[0] != '0')
    ensures s == Decimal(n)
  {
    var last := |s| - 1;
    var low := DigitOf(s[last], 10).value;
    assert s[last] == '0' + low as char;
    if |s| == 1 {
      assert s[..0] == "" && Digits("", 10) == Some(0) && n == low;
    } else {
      var high := Digits(s[..last], 10).value;
      NoLeadingZero(s[..last], high);
      assert high != 0 && n / 10 == high && n % 10 == low;
      assert s == s[..last] + [s[last]];
    }
  }

  lemma {:induction false} DecimalHasNoZero(n: nat)
    ensures |Decimal(n)| == 1 || Decimal(n)[0] != '0'
  {
    if n >= 10 {
      DecimalHasNoZero(n / 10);
      if n / 10 < 10 { assert Decimal(n / 10) == ['0' + (n / 10) as char]; }
    }
  }

  lemma DecimalIsShort(n: nat)
    requires n < 256
    ensures |Decimal(n)| <= 3
  {
    if n >= 100 { assert |Decimal(n / 100)| == 1 && n / 100 == n / 10 / 10; }
  }

  lemma OctetIff(p: string, n: nat)
    ensures AddressOctet(p) == Some(n) <==> n < 256 && p == Decimal(n)
  {
    hide Decimal, Digits;
    if n < 256 && p == Decimal(n) {
      DecimalIsShort(n);
      DecimalHasNoZero(n);
      DecimalReadsBack(n, 256);
    }
    if AddressOctet(p) == Some(n) { NoLeadingZero(p, n); }
  }

  lemma {:induction false} DecimalIsDigits(n: nat)
    ensures forall c | c in Decimal(n) :: '0' <= c <= '9'
  {
    if n >= 10 { DecimalIsDigits(n / 10); }
  }

  function Decimals(octets: seq<nat>): (r: seq<string>)
    requires |octets| == 4
    ensures |r| == 4
  {
    [Decimal(octets[0]), Decimal(octets[1]), Decimal(octets[2]), Decimal(octets[3])]
  }

  lemma DottedIsJoined(octets: seq<nat>)
    requires |octets| == 4
    ensures Joined(Decimals(octets), '.') == Dotted(octets)
    ensures forall p | p in Decimals(octets) :: '.' !in p
    ensures '/' !in Dotted(octets)
  {
    var d := Decimals(octets);
    forall i | 0 <= i < 4 ensures '.' !in d[i] && '/' !in d[i] { DecimalIsDigits(octets[i]); }
    hide Decimal;
    assert d[1..][1..][1..] == [d[3]] && d[1..][1..] == [d[2], d[3]] && d[1..] == [d[1], d[2], d[3]];
    assert Joined([d[3]], '.') == d[3];
    assert Joined([d[2], d[3]], '.') == d[2] + ['.'] + d[3] by { assert [d[2], d[3]][1..] == [d[3]]; }
    assert Joined(d[1..], '.') == d[1] + ['.'] + (d[2] + ['.'] + d[3]);
  }

  lemma AddressIff(s: string, octets: seq<nat>)
    ensures ParseAddress(s) == Some(octets) <==> NamesAddress(s, octets)
  {
    hide Split, ParseAll, AddressOctet, Joined, Decimal;
    var parts := Split(s, '.');
    ParseAllIff(parts, AddressOctet, octets);
    if |octets| == 4 {
      forall p: string, n: nat ensures AddressOctet(p) == Some(n) <==> n < 256 && p == Decimal(n) { OctetIff(p, n); }
      SplitIff(s, '.', Decimals(octets));
      DottedIsJoined(octets);
      hide Dotted;
      if ParseAddress(s) == Some(octets) { assert parts == Decimals(octets); }
    }
  }

  lemma {:induction false} SlashIff(head: string, rest: string)
    requires '/' !in head
    ensures Slash(head + "/" + rest) == Some(|head|)
  {
    var s := head + "/" + rest;
    if head != "" {
      assert s[1..] == head[1..] + "/" + rest;
      SlashIff(head[1..], rest);
    }
  }

  lemma {:induction false} FirstSlash(s: string)
    ensures Slash(s).Some? ==> Slash(s).value < |s| && s[Slash(s).value] == '/'
    ensures Slash(s) == None <==> '/' !in s
  {
    if s != "" {
      FirstSlash(s[1..]);
      assert s == [s[0]] + s[1..];
    }
  }

  /** A bare address is all its bits; behind a slash comes the number of bits. */
  lemma NetworkIff(s: string, octets: seq<nat>, bits: nat)
    ensures ParseCidr(s) == Some((octets, bits)) <==> NamesNetwork(s, octets, bits)
  {
    hide Slash, ParseAddress, ParseUnsigned, Dotted, WritesNumber;
    FirstSlash(s);
    AddressIff(s, octets);
    match Slash(s)
    case None =>
      if AreOctets(octets, 4) {
        forall length ensures s != Dotted(octets) + "/" + length { assert '/' in "/"; }
      }
    case Some(i) =>
      var rest := s[i + 1..];
      AddressIff(s[..i], octets);
      NumberIff(rest, 10, U8, bits);
      if AreOctets(octets, 4) {
        DottedIsJoined(octets);
        if s[..i] == Dotted(octets) { assert s == s[..i] + "/" + rest; }
        forall length | s == Dotted(octets) + "/" + length ensures s[..i] == Dotted(octets) && length == rest {
          SlashIff(Dotted(octets), length);
        }
      }
  }

  lemma ColonIsNoDigit(d: nat)
    ensures !IsDigit(':', d)
  {
    DigitIff(':', 16, d);
    hide IsDigit;
  }

  lemma NoColonInNumerals(s: string, n: nat)
    requires Numeral(s, 16, n)
    ensures ':' !in s
  {
    hide Positional, IsDigit;
    var digits :| Spells(s, digits, 16) && n == Positional(digits, 16);
    if ':' in s {
      var i :| 0 <= i < |s| && s[i] == ':';
      ColonIsNoDigit(digits[i]);
      assert false;
    }
  }

  lemma NoColon(p: string, n: nat)
    requires WritesNumber(p, 16, n)
    ensures ':' !in p
  {
    hide Numeral;
    if Numeral(p, 16, n) {
      NoColonInNumerals(p, n);
    } else {
      NoColonInNumerals(p[1..], n);
      assert p == [p[0]] + p[1..];
    }
  }

  lemma MacIff(s: string, octets: seq<nat>)
    ensures ParseMac(s) == Some(octets) <==> NamesMac(s, octets)
  {
    hide Split, ParseAll, Joined, WritesNumber, ParseUnsigned;
    var parts := Split(s, ':');
    ParseAllIff(parts, MacOctet, octets);
    SplitIff(s, ':', parts);
    forall p: string, n: nat ensures MacOctet(p) == Some(n) <==> n < 256 && WritesNumber(p, 16, n) {
      NumberIff(p, 16, U8, n);
    }
    if ParseMac(s) == Some(octets) { assert AreHex(parts, octets); }
    if NamesMac(s, octets) {
      var hex :| |hex| == 6 && s == Joined(hex, ':') && AreHex(hex, octets);
      forall p | p in hex ensures ':' !in p {
        var i :| 0 <= i < 6 && hex[i] == p;
        NoColon(p, octets[i]);
      }
      SplitIff(s, ':', hex);
    }
  }

  // ---------------------------------------------------------------- types and ports

  /** Hexadecimal behind `0x`, or a decimal. */
  ghost predicate NamesType(s: string, n: nat) {
    n < 0x1_0000 && (WritesNumber(s, 10, n) || (2 <= |s| && s[..2] == "0x" && WritesNumber(s[2..], 16, n)))
  }

  lemma NoDecimalHasX(s: string, n: nat)
    requires 2 <= |s| && s[..2] == "0x"
    ensures !WritesNumber(s, 10, n)
  {
    hide Positional;
    assert s[0] == s[..2][0] == '0' && s[1] == s[..2][1] == 'x';
    if Numeral(s, 10, n) {
      var digits :| Spells(s, digits, 10) && n == Positional(digits, 10);
      DigitIff(s[1], 10, digits[1]);
    }
  }

  lemma TypeIff(s: string, n: nat)
    ensures ParseEthType(s) == Some(n) <==> NamesType(s, n)
  {
    hide ParseUnsigned, WritesNumber;
    NumberIff(s, 10, U16, n);
    if 2 <= |s| && s[..2] == "0x" {
      NumberIff(s[2..], 16, U16, n);
      NoDecimalHasX(s, n);
    }
  }

  ghost predicate IsPortNumber(s: string) { exists n | n < 0x1_0000_0000 :: WritesNumber(s, 10, n) }

  /** A word of capitals and underscores, in letters of any case. */
  predicate SaysWord(s: string, word: string) {
    |s| == |word| &&
    forall i | 0 <= i < |s| :: s[i] == word[i] || ('A' <= word[i] <= 'Z' && s[i] as int == word[i] as int + 32)
  }

  /** A number, else `LOCAL` in letters of any case, else a name the switch reported. */
  ghost predicate NamesPort(s: string, ports: PortMap, n: nat) {
    if IsPortNumber(s) then n < 0x1_0000_0000 && WritesNumber(s, 10, n)
    else if SaysWord(s, "LOCAL") then n == 0xffff_fffe
    else s in ports && n == ports[s]
  }

  lemma WordIff(s: string, word: string)
    requires forall i | 0 <= i < |word| :: !('a' <= word[i] <= 'z')
    ensures SameAscii(s, word) <==> SaysWord(s, word)
  {
    var up := UpperAscii(s);
    assert UpperAscii(word) == word;
    if SaysWord(s, word) { assert up == word; }
    if up == word {
      forall i | 0 <= i < |s|
        ensures s[i] == word[i] || ('A' <= word[i] <= 'Z' && s[i] as int == word[i] as int + 32)
      {
        assert up[i] == word[i];
      }
    }
  }

  lemma PortIff(s: string, ports: PortMap, n: nat)
    ensures ResolvePort(s, ports) == Some(n) <==> NamesPort(s, ports, n)
  {
    hide ParseUnsigned, WritesNumber, SameAscii, SaysWord;
    WordIff(s, "LOCAL");
    forall n: nat ensures ParseUnsigned(s, 10, U32) == Some(n) <==> n < U32 && WritesNumber(s, 10, n) {
      NumberIff(s, 10, U32, n);
    }
  }

  // ---------------------------------------------------------------- flags

  /** The names of the flags, in the order of their bits. */
  const CT_NAMES := ["new", "est", "rel", "rpl", "inv", "trk", "snat", "dnat"]
  const TCP_NAMES := ["fin", "syn", "rst", "psh", "ack", "urg", "ece", "cwr", "ns"]

  function Bit32(i: nat): bv32 { if i == 0 then 1 else Bit32(i - 1) << 1 }

  function Bit16(i: nat): bv16 { if i == 0 then 1 else Bit16(i - 1) << 1 }

  /** The `i`-th flag is among the parts between the plus signs. */
  predicate AsksFlag(s: string, names: seq<string>, i: nat) { i < |names| && names[i] in Split(s, '+') }

  predicate OnlyFlags(s: string, names: seq<string>) { forall t | t in Split(s, '+') :: t == "" || t in names }

  predicate IsSet(state: bv32, i: nat) { state & Bit32(i) != 0 }

  /** Every bit of `x` is set. */
  predicate Covers(state: bv32, x: bv32) { state & x == x }

  /** All flags asked for are set. */
  predicate HasState(state: bv32, s: string) {
    forall i | 0 <= i < 8 && AsksFlag(s, CT_NAMES, i) :: IsSet(state, i)
  }

  lemma CtBits()
    ensures Bit32(0) == 0x01 && Bit32(1) == 0x02 && Bit32(2) == 0x04 && Bit32(3) == 0x08
    ensures Bit32(4) == 0x10 && Bit32(5) == 0x20 && Bit32(6) == 0x40 && Bit32(7) == 0x80
  {
    assert Bit32(1) == 0x02;
    assert Bit32(2) == 0x04;
    assert Bit32(3) == 0x08;
    assert Bit32(4) == 0x10;
    assert Bit32(5) == 0x20;
    assert Bit32(6) == 0x40;
  }

  lemma CtFlagIff(token: string)
    ensures token in CT_NAMES <==> CtFlag(token).Some?
    ensures forall i | 0 <= i < 8 && CT_NAMES[i] == token :: CtFlag(token) == Some(Bit32(i))
  {
    CtBits();
    hide Bit32;
    match token
    case "new" => assert CT_NAMES[0] == token;
    case "est" => assert CT_NAMES[1] == token;
    case "rel" => assert CT_NAMES[2] == token;
    case "rpl" => assert CT_NAMES[3] == token;
    case "inv" => assert CT_NAMES[4] == token;
    case "trk" => assert CT_NAMES[5] == token;
    case "snat" => assert CT_NAMES[6] == token;
    case "dnat" => assert CT_NAMES[7] == token;
    case _ =>
  }

  lemma OneBit(i: nat, state: bv32)
    requires i < 8
    ensures Covers(state, Bit32(i)) <==> IsSet(state, i)
  {
    CtBits();
    hide Bit32;
    assert state & 0x01 == 0x01 <==> state & 0x01 != 0;
    assert state & 0x02 == 0x02 <==> state & 0x02 != 0;
    assert state & 0x04 == 0x04 <==> state & 0x04 != 0;
    assert state & 0x08 == 0x08 <==> state & 0x08 != 0;
    assert state & 0x10 == 0x10 <==> state & 0x10 != 0;
    assert state & 0x20 == 0x20 <==> state & 0x20 != 0;
    assert state & 0x40 == 0x40 <==> state & 0x40 != 0;
    assert state & 0x80 == 0x80 <==> state & 0x80 != 0;
  }

  function Together(a: bv32, b: bv32): bv32 { a | b }

  lemma BothSet(state: bv32, a: bv32, b: bv32)
    ensures Covers(state, Together(a, b)) <==> Covers(state, a) && Covers(state, b)
  {
    if Covers(state, Together(a, b)) {
      PartIsSet(state, a, b);
      PartIsSet(state, b, a);
      assert a | b == b | a;
    }
    if Covers(state, a) && Covers(state, b) { WholeIsSet(state, a, b); }
  }

  lemma PartIsSet(state: bv32, a: bv32, b: bv32)
    requires Covers(state, a | b)
    ensures Covers(state, a)
  {
  }

  lemma WholeIsSet(state: bv32, a: bv32, b: bv32)
    requires Covers(state, a) && Covers(state, b)
    ensures Covers(state, a | b)
  {
  }

  predicate HasStateOf(state: bv32, tokens: seq<string>) {
    forall i | 0 <= i < 8 && CT_NAMES[i] in tokens :: IsSet(state, i)
  }

  predicate AreFlags(tokens: seq<string>, names: seq<string>) { forall t | t in tokens :: t == "" || t in names }

  lemma LastFlag(tokens: seq<string>, state: bv32)
    requires tokens != []
    ensures
      var before, last := tokens[..|tokens| - 1], tokens[|tokens| - 1];
      HasStateOf(state, tokens) <==>
      HasStateOf(state, before) && (CtFlag(last).Some? ==> Covers(state, CtFlag(last).value))
  {
    hide CtFlag, Bit32, CT_NAMES, IsSet, Covers;
    var before, last := tokens[..|tokens| - 1], tokens[|tokens| - 1];
    assert tokens == before + [last];
    CtFlagIff(last);
    EightNames();
    forall i: nat | i < 8 && CT_NAMES[i] == last
      ensures CtFlag(last) == Some(Bit32(i)) && (Covers(state, Bit32(i)) <==> IsSet(state, i))
    {
      OneBit(i, state);
    }
    if CtFlag(last).Some? { assert exists i: nat :: i < 8 && CT_NAMES[i] == last; }
  }

  lemma EightNames()
    ensures |CT_NAMES| == 8 && |TCP_NAMES| == 9 && "" !in CT_NAMES && "" !in TCP_NAMES
  {
  }

  /** The bits are those of the names: a state has them all exactly when it has every flag
      asked for. */
  lemma {:induction false} CtTokens(tokens: seq<string>, state: bv32)
    ensures OrCtFlags(tokens).Some? <==> AreFlags(tokens, CT_NAMES)
    ensures OrCtFlags(tokens).Some? ==>
              (Covers(state, OrCtFlags(tokens).value) <==> HasStateOf(state, tokens))
  {
    hide CtFlag, HasStateOf, CT_NAMES, Covers, OrCtFlags;
    if tokens == [] {
      NoTokens(state);
    } else {
      var before, last := tokens[..|tokens| - 1], tokens[|tokens| - 1];
      assert tokens == before + [last];
      CtTokens(before, state);
      LastFlag(tokens, state);
      CtFlagIff(last);
      EightNames();
      OrLast(tokens, state);
    }
  }

  lemma NoTokens(state: bv32)
    ensures HasStateOf(state, []) && OrCtFlags([]).Some? && Covers(state, OrCtFlags([]).value)
  {
    hide IsSet;
  }

  lemma OrLast(tokens: seq<string>, state: bv32)
    requires tokens != []
    ensures
      var before, last := OrCtFlags(tokens[..|tokens| - 1]), tokens[|tokens| - 1];
      (OrCtFlags(tokens).Some? <==> before.Some? && (last == "" || CtFlag(last).Some?)) &&
      (OrCtFlags(tokens).Some? ==>
         (Covers(state, OrCtFlags(tokens).value) <==>
          Covers(state, before.value) && (last != "" ==> Covers(state, CtFlag(last).value))))
  {
    hide CtFlag, Covers, OrCtFlags, Together;
    var before, last := OrCtFlags(tokens[..|tokens| - 1]), tokens[|tokens| - 1];
    OrWith(tokens, before, last);
    if last != "" && before.Some? && CtFlag(last).Some? { BothSet(state, before.value, CtFlag(last).value); }
  }

  lemma OrWith(tokens: seq<string>, before: Option<bv32>, last: string)
    requires tokens != [] && before == OrCtFlags(tokens[..|tokens| - 1]) && last == tokens[|tokens| - 1]
    ensures OrCtFlags(tokens) ==
            if before == None then None
            else if last == "" then before
            else if CtFlag(last) == None then None
            else Some(Together(before.value, CtFlag(last).value))
  {
    hide CtFlag;
  }

  lemma StateIff(s: string, state: bv32)
    ensures OrCtFlags(Split(s, '+')).Some? <==> OnlyFlags(s, CT_NAMES)
    ensures
      var x := OrCtFlags(Split(s, '+'));
      x.Some? ==> (Covers(state, x.value) <==> HasState(state, s))
  {
    hide OrCtFlags, CT_NAMES, Split, IsSet, Covers;
    CtTokens(Split(s, '+'), state);
    EightNames();
  }

  lemma TcpFlagIff(token: string)
    ensures token in TCP_NAMES <==> TcpFlag(token).Some?
    ensures forall i | 0 <= i < 9 && TCP_NAMES[i] == token :: TcpFlag(token) == Some(Bit16(i))
  {
    TcpBits();
    hide Bit16;
    match token
    case "fin" => assert TCP_NAMES[0] == token;
    case "syn" => assert TCP_NAMES[1] == token;
    case "rst" => assert TCP_NAMES[2] == token;
    case "psh" => assert TCP_NAMES[3] == token;
    case "ack" => assert TCP_NAMES[4] == token;
    case "urg" => assert TCP_NAMES[5] == token;
    case "ece" => assert TCP_NAMES[6] == token;
    case "cwr" => assert TCP_NAMES[7] == token;
    case "ns" => assert TCP_NAMES[8] == token;
    case _ =>
  }

  lemma TcpBits()
    ensures Bit16(0) == 0x001 && Bit16(1) == 0x002 && Bit16(2) == 0x004 && Bit16(3) == 0x008 && Bit16(4) == 0x010
    ensures Bit16(5) == 0x020 && Bit16(6) == 0x040 && Bit16(7) == 0x080 && Bit16(8) == 0x100
  {
    assert Bit16(1) == 0x002;
    assert Bit16(2) == 0x004;
    assert Bit16(3) == 0x008;
    assert Bit16(4) == 0x010;
    assert Bit16(5) == 0x020;
    assert Bit16(6) == 0x040;
    assert Bit16(7) == 0x080;
  }

  lemma {:induction false} TcpTokens(tokens: seq<string>)
    ensures OrTcpFlags(tokens).Some? <==> AreFlags(tokens, TCP_NAMES)
  {
    hide TcpFlag, TCP_NAMES;
    if tokens != [] {
      var before, last := tokens[..|tokens| - 1], tokens[|tokens| - 1];
      assert tokens == before + [last];
      TcpTokens(before);
      TcpFlagIff(last);
    }
  }

  predicate IsSet16(flags: bv16, i: nat) { flags & Bit16(i) != 0 }

  /** Flags by name, or all of them by number behind `0x`. */
  ghost predicate HasTcpFlags(flags: bv16, s: string) {
    if HasPrefix(s, "0x") then exists n: nat :: n < 0x1_0000 && WritesNumber(s[2..], 16, n) && flags == n as bv16
    else forall i | 0 <= i < 9 && AsksFlag(s, TCP_NAMES, i) :: IsSet16(flags, i)
  }

  lemma UniqueNumber(s: string, radix: nat, a: nat, b: nat)
    requires radix <= 16 && WritesNumber(s, radix, a) && WritesNumber(s, radix, b)
    ensures a == b
  {
    hide WritesNumber, ParseUnsigned;
    NumberIff(s, radix, a + b + 1, a);
    NumberIff(s, radix, a + b + 1, b);
  }

  lemma NothingIsZero(i: nat)
    ensures !IsSet16(0, i)
  {
  }

  lemma NotThese(s: string, flags: bv16, n: nat)
    requires HasPrefix(s, "0x") && WritesNumber(s[2..], 16, n) && n < 0x1_0000 && flags != n as bv16
    ensures !HasTcpFlags(flags, s)
  {
    hide WritesNumber;
    forall k: nat | k < 0x1_0000 && WritesNumber(s[2..], 16, k) ensures k == n { UniqueNumber(s[2..], 16, k, n); }
  }

  lemma ZeroHasNoFlag(s: string)
    requires ParseTcpFlags(s).Some? && !HasPrefix(s, "0x") && !NoFlags(s)
    ensures !HasTcpFlags(0, s)
  {
    hide Split, OrTcpFlags, TCP_NAMES, IsSet16;
    OnlySeparators(s, '+');
    TcpTokens(Split(s, '+'));
    EightNames();
    var t :| t in Split(s, '+') && t != "";
    var i :| 0 <= i < |TCP_NAMES| && TCP_NAMES[i] == t;
    assert AsksFlag(s, TCP_NAMES, i);
    NothingIsZero(i);
  }

  /** Unless a text is plus signs alone, there are flags that are not those it asks for. */
  lemma SomeFlagsFail(s: string) returns (flags: bv16)
    requires ParseTcpFlags(s).Some? && !NoFlags(s)
    ensures !HasTcpFlags(flags, s)
  {
    hide HasTcpFlags, OrTcpFlags, WritesNumber;
    if HasPrefix(s, "0x") {
      var n := ParseUnsigned(s[2..], 16, U16).value;
      NumberIff(s[2..], 16, U16, n);
      flags := if n as bv16 == 0 then 1 else 0;
      NotThese(s, flags, n);
    } else {
      flags := 0;
      ZeroHasNoFlag(s);
    }
  }
}
