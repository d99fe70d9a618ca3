/** The name forms of `descriptor.rs` character by character: what each one becomes by itself
    and by the one before it. */
module NameForms {
  import opened Text
  import opened Messages

  function Flat(pieces: seq<string>): string {
    if pieces == [] then "" else Flat(pieces[..|pieces| - 1]) + pieces[|pieces| - 1]
  }

  // ---------------------------------------------------------------- Pascal case

  predicate IsSeparator(c: char) { c == '_' || c == '-' || c == '.' }

  /** The separators go, and a character behind one, or in front, is put in upper case. */
  function PascalPiece(s: string, i: nat): string
    requires i < |s|
  {
    if IsSeparator(s[i]) then ""
    else if i == 0 || IsSeparator(s[i - 1]) then TO_UPPERCASE(s[i])
    else [s[i]]
  }

  function PascalPieces(s: string): seq<string> {
    seq(|s|, i requires 0 <= i < |s| => PascalPiece(s, i))
  }

  // ---------------------------------------------------------------- JSON names

  /** Underscores go, and a character behind one is put in upper case. */
  function JsonPiece(s: string, i: nat): string
    requires i < |s|
  {
    if s[i] == '_' then "" else if i > 0 && s[i - 1] == '_' then TO_UPPERCASE(s[i]) else [s[i]]
  }

  function JsonPieces(s: string): seq<string> {
    seq(|s|, i requires 0 <= i < |s| => JsonPiece(s, i))
  }

  // ---------------------------------------------------------------- snake case

  /** Separators become underscores, and a capital becomes its lower-case form, behind an
      underscore unless it is in front or behind a separator. */
  function SnakePiece(s: string, i: nat): string
    requires i < |s|
  {
    if IsSeparator(s[i]) then "_"
    else if LOWER_OF_UPPERCASE(s[i]).Some? then
      (if i == 0 || IsSeparator(s[i - 1]) then "" else "_") + LOWER_OF_UPPERCASE(s[i]).value
    else [s[i]]
  }

  function SnakePieces(s: string): seq<string> {
    seq(|s|, i requires 0 <= i < |s| => SnakePiece(s, i))
  }

  // ---------------------------------------------------------------- proofs

  lemma FlatStep(pieces: seq<string>, n: nat)
    requires n < |pieces|
    ensures Flat(pieces[..n + 1]) == Flat(pieces[..n]) + pieces[n]
  {
    assert pieces[..n + 1][..n] == pieces[..n];
  }

  lemma {:induction false} PascalRest(s: string, n: nat, out: string)
    requires n <= |s| && out == Flat(PascalPieces(s)[..n])
    ensures out + PascalFrom(s[n..], n == 0 || IsSeparator(s[n - 1])) == Flat(PascalPieces(s))
    decreases |s| - n
  {
    hide Flat;
    var pieces := PascalPieces(s);
    if n == |s| {
      assert pieces[..n] == pieces && s[n..] == "";
    } else {
      FlatStep(pieces, n);
      assert s[n..][0] == s[n] && s[n..][1..] == s[n + 1..];
      PascalRest(s, n + 1, out + pieces[n]);
      assert (out + pieces[n]) + PascalFrom(s[n + 1..], IsSeparator(s[n])) ==
             out + (pieces[n] + PascalFrom(s[n + 1..], IsSeparator(s[n])));
    }
  }

  lemma {:induction false} JsonRest(s: string, n: nat, out: string)
    requires n <= |s| && out == Flat(JsonPieces(s)[..n])
    ensures out + JsonNameFrom(s[n..], n > 0 && s[n - 1] == '_') == Flat(JsonPieces(s))
    decreases |s| - n
  {
    hide Flat;
    var pieces := JsonPieces(s);
    if n == |s| {
      assert pieces[..n] == pieces && s[n..] == "";
    } else {
      FlatStep(pieces, n);
      assert s[n..][0] == s[n] && s[n..][1..] == s[n + 1..];
      JsonRest(s, n + 1, out + pieces[n]);
      assert (out + pieces[n]) + JsonNameFrom(s[n + 1..], s[n] == '_') ==
             out + (pieces[n] + JsonNameFrom(s[n + 1..], s[n] == '_'));
    }
  }

  lemma {:induction false} SnakeRest(s: string, n: nat, out: string)
    requires n <= |s| && out == Flat(SnakePieces(s)[..n])
    requires n > 0 ==> out != "" && (out[|out| - 1] == '_' <==> IsSeparator(s[n - 1]))
    ensures SnakeFrom(s[n..], out, n == 0) == Flat(SnakePieces(s))
    decreases |s| - n
  {
    hide Flat;
    var pieces := SnakePieces(s);
    if n == |s| {
      assert pieces[..n] == pieces && s[n..] == "";
    } else {
      FlatStep(pieces, n);
      assert s[n..][0] == s[n] && s[n..][1..] == s[n + 1..];
      var more := out + pieces[n];
      assert more[|more| - 1] == pieces[n][|pieces[n]| - 1];
      if LOWER_OF_UPPERCASE(s[n]).Some? {
        var lower := LOWER_OF_UPPERCASE(s[n]).value;
        assert (out + "_") + lower == out + ("_" + lower) && (out + "") + lower == out + ("" + lower);
      }
      SnakeRest(s, n + 1, more);
    }
  }

  /** The name forms, piece by piece. */
  lemma NamesByPieces(s: string)
    ensures PascalCase(s) == Flat(PascalPieces(s))
    ensures SnakeCase(s) == Flat(SnakePieces(s))
    ensures JsonName(s) == Flat(JsonPieces(s))
  {
    hide Flat, PascalFrom, SnakeFrom, JsonNameFrom;
    NoPieces();
    assert s[0..] == s && PascalPieces(s)[..0] == [] && JsonPieces(s)[..0] == [] && SnakePieces(s)[..0] == [];
    PascalRest(s, 0, "");
    JsonRest(s, 0, "");
    SnakeRest(s, 0, "");
    assert "" + PascalFrom(s, true) == PascalFrom(s, true) && "" + JsonNameFrom(s, false) == JsonNameFrom(s, false);
  }

  lemma NoPieces()
    ensures Flat([]) == ""
  {
  }
}
