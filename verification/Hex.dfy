/** The two hex decoders (src/rules/rule_engine.cpp, src/patch/patch_engine.cpp) against one
    independent notion of "`text` spells these bytes". */
module Hex {
  import opened Text

  predicate IsSeparator(c: char) {
    IsSpace(c) || c == '-'
  }

  /** The characters that are not separators. */
  function Kept(text: string): string {
    if text == "" then ""
    else if IsSeparator(text[|text| - 1]) then Kept(text[..|text| - 1])
    else Kept(text[..|text| - 1]) + [text[|text| - 1]]
  }

  function Normalized(text: string): string {
    var kept := ToLower(Kept(text));
    if "0x" <= kept then kept[2..] else kept
  }

  /** Value of a lower-case hex digit, -1 for anything else. */
  function Nibble(c: char): (n: int)
    ensures -1 <= n < 16
  {
    if '0' <= c <= '9' then c as int - '0' as int
    else if 'a' <= c <= 'f' then 10 + (c as int - 'a' as int)
    else -1
  }

  predicate HexPairs(digits: string) {
    && |digits| % 2 == 0
    && forall i | 0 <= i < |digits| :: Nibble(digits[i]) >= 0
  }

  function PairByte(digits: string, i: nat): char
    requires HexPairs(digits) && 2 * i + 1 < |digits|
  {
    (16 * Nibble(digits[2 * i]) + Nibble(digits[2 * i + 1])) as char
  }

  /** What both decoders compute. */
  function Decode(text: string): Option<string> {
    var digits := Normalized(text);
    if HexPairs(digits) then
      Some(seq(|digits| / 2, i requires 0 <= i < |digits| / 2 => PairByte(digits, i)))
    else None
  }

  // ---------- the two loops ----------

  method KeepLowered(text: string) returns (normalized: string)
    ensures normalized == ToLower(Kept(text))
  {
    normalized := "";
    for i := 0 to |text|
      invariant normalized == ToLower(Kept(text[..i]))
    {
      assert text[..i + 1][..i] == text[..i];
      if !IsSpace(text[i]) && text[i] != '-' {
        ToLowerConcat(Kept(text[..i]), [text[i]]);
        normalized := normalized + [LowerChar(text[i])];
      }
    }
    assert text[..|text|] == text;
  }

  /** `RuleEngine::decode_hex_string`: a success flag and an out-parameter cleared at the start. */
  method DecodeForRules(text: string) returns (ok: bool, outBytes: string)
    ensures ok <==> Decode(text).Some?
    ensures ok ==> Decode(text) == Some(outBytes)
  {
    hide Kept, ToLower;
    outBytes := "";
    var normalized := KeepLowered(text);
    if "0x" <= normalized {
      normalized := normalized[2..];
    }
    if normalized == "" {
      assert Decode(text).value == "";
      return true, "";
    }
    if |normalized| % 2 != 0 {
      return false, "";
    }
    var index := 0;
    while index < |normalized|
      invariant 0 <= index <= |normalized| && index % 2 == 0
      invariant forall i | 0 <= i < index :: Nibble(normalized[i]) >= 0
      invariant |outBytes| == index / 2
      invariant forall i | 0 <= i < index / 2 ::
                  outBytes[i] == (16 * Nibble(normalized[2 * i]) + Nibble(normalized[2 * i + 1])) as char
    {
      var high, low := Nibble(normalized[index]), Nibble(normalized[index + 1]);
      if high < 0 || low < 0 {
        return false, outBytes;
      }
      outBytes := outBytes + [(16 * high + low) as char];
      index := index + 2;
    }
    assert Decode(text).Some? && Decode(text).value == outBytes;
    ok := true;
  }

  /** `PatchEngine::decode_hex_string` with `normalize_hex_string`: an optional result. */
  method DecodeForPatches(value: string) returns (r: Option<string>)
    ensures r == Decode(value)
  {
    hide Kept, ToLower;
    var normalized := KeepLowered(value);
    if "0x" <= normalized {
      normalized := normalized[2..];
    }
    if normalized == "" {
      assert Decode(value).value == "";
      return Some("");
    }
    if |normalized| % 2 != 0 {
      return None;
    }
    var bytes := "";
    var index := 0;
    while index < |normalized|
      invariant 0 <= index <= |normalized| && index % 2 == 0
      invariant forall i | 0 <= i < index :: Nibble(normalized[i]) >= 0
      invariant |bytes| == index / 2
      invariant forall i | 0 <= i < index / 2 ::
                  bytes[i] == (16 * Nibble(normalized[2 * i]) + Nibble(normalized[2 * i + 1])) as char
    {
      var high, low := Nibble(normalized[index]), Nibble(normalized[index + 1]);
      if high < 0 || low < 0 {
        return None;
      }
      bytes := bytes + [(16 * high + low) as char];
      index := index + 2;
    }
    assert Decode(value).Some? && Decode(value).value == bytes;
    return Some(bytes);
  }

  /** On every text the two decoders accept or reject together, and decode to the same bytes. */
  method DecodersAgree(text: string) returns (ok: bool, bytes: string, r: Option<string>)
    ensures r == if ok then Some(bytes) else None
    ensures r == Decode(text)
  {
    ok, bytes := DecodeForRules(text);
    r := DecodeForPatches(text);
  }

  // ---------- meaning ----------

  /** `c` is a hex digit of value `n`, in either case. */
  predicate IsHexDigit(c: char, n: nat) {
    if n < 10 then c as int == '0' as int + n
    else n < 16 && (c as int == 'a' as int + n - 10 || c as int == 'A' as int + n - 10)
  }

  /** Two digits for each byte, high half first. */
  predicate Spells(digits: string, bytes: string) {
    && |digits| == 2 * |bytes|
    && forall i | 0 <= i < |bytes| ::
         && bytes[i] as int < 256
         && IsHexDigit(digits[2 * i], bytes[i] as int / 16)
         && IsHexDigit(digits[2 * i + 1], bytes[i] as int % 16)
  }

  /** `text` is a rendering of `bytes`: digits in either case, separators anywhere, optional 0x. */
  predicate Renders(text: string, bytes: string) {
    var kept := Kept(text);
    || Spells(kept, bytes)
    || (|kept| >= 2 && kept[0] == '0' && (kept[1] == 'x' || kept[1] == 'X') && Spells(kept[2..], bytes))
  }

  lemma NibbleOfDigit(c: char, n: nat)
    requires n < 16
    ensures IsHexDigit(c, n) <==> Nibble(LowerChar(c)) == n
  {
  }

  lemma SpellsIff(digits: string, bytes: string)
    ensures Spells(digits, bytes) <==>
              var lower := ToLower(digits);
              HexPairs(lower) && |bytes| == |lower| / 2
              && forall i | 0 <= i < |bytes| :: bytes[i] == PairByte(lower, i)
  {
    var lower := ToLower(digits);
    if Spells(digits, bytes) {
      forall i | 0 <= i < |digits| ensures Nibble(lower[i]) >= 0 {
        var b := bytes[i / 2] as int;
        NibbleOfDigit(digits[i], if i % 2 == 0 then b / 16 else b % 16);
        assert i == 2 * (i / 2) || i == 2 * (i / 2) + 1;
      }
      forall i | 0 <= i < |bytes| ensures bytes[i] == PairByte(lower, i) {
        var b := bytes[i] as int;
        NibbleOfDigit(digits[2 * i], b / 16);
        NibbleOfDigit(digits[2 * i + 1], b % 16);
      }
    }
    if HexPairs(lower) && |bytes| == |lower| / 2 && forall i | 0 <= i < |bytes| :: bytes[i] == PairByte(lower, i) {
      forall i | 0 <= i < |bytes|
        ensures bytes[i] as int < 256
        ensures IsHexDigit(digits[2 * i], bytes[i] as int / 16)
        ensures IsHexDigit(digits[2 * i + 1], bytes[i] as int % 16)
      {
        assert bytes[i] == PairByte(lower, i);
        NibbleOfDigit(digits[2 * i], Nibble(lower[2 * i]));
        NibbleOfDigit(digits[2 * i + 1], Nibble(lower[2 * i + 1]));
      }
    }
  }

  /** Decoding succeeds with `bytes` exactly when `text` renders them. */
  lemma DecodeIffRenders(text: string, bytes: string)
    ensures Decode(text) == Some(bytes) <==> Renders(text, bytes)
  {
    hide Kept;
    var kept := Kept(text);
    var lower := ToLower(kept);
    SpellsIff(kept, bytes);
    if "0x" <= lower {
      assert lower[1] == 'x' && lower[0] == '0';
      assert !HexPairs(lower);
      assert ToLower(kept[2..]) == lower[2..];
      SpellsIff(kept[2..], bytes);
      DecodeIs(text, kept[2..], bytes);
    } else {
      assert |lower| >= 2 ==> lower[..2] != "0x";
      DecodeIs(text, kept, bytes);
    }
  }

  lemma DecodeIs(text: string, digits: string, bytes: string)
    requires Normalized(text) == ToLower(digits)
    ensures Decode(text) == Some(bytes) <==>
              var lower := ToLower(digits);
              HexPairs(lower) && |bytes| == |lower| / 2
              && forall i | 0 <= i < |bytes| :: bytes[i] == PairByte(lower, i)
  {
    hide Normalized;
    var lower := ToLower(digits);
    if HexPairs(lower) && |bytes| == |lower| / 2 && forall i | 0 <= i < |bytes| :: bytes[i] == PairByte(lower, i) {
      assert bytes == seq(|lower| / 2, i requires 0 <= i < |lower| / 2 => PairByte(lower, i));
    }
  }

  lemma {:induction false} KeptConcat(a: string, b: string)
    ensures Kept(a + b) == Kept(a) + Kept(b)
  {
    if b == "" {
      assert a + b == a;
    } else {
      assert (a + b)[..|a + b| - 1] == a + b[..|b| - 1];
      KeptConcat(a, b[..|b| - 1]);
    }
  }

  lemma NothingDecodes()
    ensures Decode("") == Some("")
  {
    assert Kept("") == "";
    hide Decode, Kept, HexPairs;
    assert Spells("", "");
    DecodeIffRenders("", "");
  }

  /** A blank or a dash inserted anywhere makes no difference. */
  lemma SeparatorAnywhere(a: string, separator: char, b: string)
    requires separator == '-' || separator as int in [9, 10, 11, 12, 13, 32]
    ensures Decode(a + [separator] + b) == Decode(a + b)
  {
    hide Kept, IsSeparator, HexPairs;
    SeparatorIsDropped(separator);
    KeptConcat(a, [separator]);
    KeptConcat(a + [separator], b);
    KeptConcat(a, b);
    assert Kept(a) + "" == Kept(a);
  }

  lemma SeparatorIsDropped(separator: char)
    requires separator == '-' || separator as int in [9, 10, 11, 12, 13, 32]
    ensures Kept([separator]) == ""
  {
    SixBlanks(separator);
    assert [separator][..0] == "";
  }

  /** What decodes holds nothing but blanks, dashes, hex digits and the x of a prefix. */
  lemma DecodedCharacters(text: string, i: nat)
    requires Decode(text).Some? && i < |text|
    ensures var c := text[i];
            || c == '-' || c as int in [9, 10, 11, 12, 13, 32] || c == 'x' || c == 'X'
            || '0' <= c <= '9' || 'a' <= c <= 'f' || 'A' <= c <= 'F'
  {
    if !IsSeparator(text[i]) {
      var k := KeptIndex(text, i);
      var lower := ToLower(Kept(text));
      assert lower[k] == LowerChar(text[i]);
      if "0x" <= lower {
        if k < 2 { assert lower[k] == "0x"[k]; } else { assert Normalized(text)[k - 2] == lower[k]; }
      }
    }
  }

  lemma {:induction false} KeptIndex(text: string, i: nat) returns (k: nat)
    requires i < |text| && !IsSeparator(text[i])
    ensures k < |Kept(text)| && Kept(text)[k] == text[i]
    decreases |text|
  {
    if i == |text| - 1 {
      k := |Kept(text)| - 1;
    } else {
      k := KeptIndex(text[..|text| - 1], i);
    }
  }

  /** Every byte string has a rendering, so the decoders reach every byte string. */
  function Encode(bytes: string): string {
    if bytes == "" then ""
    else Encode(bytes[..|bytes| - 1]) + [Digit(bytes[|bytes| - 1] as int / 16), Digit(bytes[|bytes| - 1] as int % 16)]
  }

  function Digit(n: nat): char {
    if n < 10 then (n + '0' as int) as char
    else if n < 16 then (n - 10 + 'a' as int) as char
    else '?'
  }

  lemma DigitIsKept(n: nat)
    requires n < 16
    ensures Kept([Digit(n)]) == [Digit(n)] && IsHexDigit(Digit(n), n)
  {
    KeptEmpty();
  }

  lemma KeptEmpty()
    ensures Kept("") == ""
  {
  }

  lemma {:induction false} EncodeSpells(bytes: string)
    requires forall i | 0 <= i < |bytes| :: bytes[i] as int < 256
    ensures Kept(Encode(bytes)) == Encode(bytes) && Spells(Encode(bytes), bytes)
  {
    hide Kept, Digit, IsHexDigit;
    if bytes == "" {
      KeptEmpty();
    } else {
      var front, n := bytes[..|bytes| - 1], bytes[|bytes| - 1] as int;
      EncodeSpells(front);
      var h, l := Digit(n / 16), Digit(n % 16);
      DigitIsKept(n / 16);
      DigitIsKept(n % 16);
      KeptConcat(Encode(front), [h]);
      KeptConcat(Encode(front) + [h], [l]);
      assert Encode(bytes) == Encode(front) + [h] + [l];
    }
  }

  lemma EncodeDecode(bytes: string)
    requires forall i | 0 <= i < |bytes| :: bytes[i] as int < 256
    ensures Decode(Encode(bytes)) == Some(bytes) && Decode("0x" + Encode(bytes)) == Some(bytes)
  {
    hide Kept, Encode, Decode, Spells;
    EncodeSpells(bytes);
    DecodeIffRenders(Encode(bytes), bytes);
    KeptConcat("0x", Encode(bytes));
    PrefixKept();
    assert Kept("0x" + Encode(bytes))[2..] == Encode(bytes);
    DecodeIffRenders("0x" + Encode(bytes), bytes);
  }

  lemma PrefixKept()
    ensures Kept("0x") == "0x"
  {
    KeptConcat("0", "x");
    assert "0" + "x" == "0x";
  }
}
