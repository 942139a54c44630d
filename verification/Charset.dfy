/**
 The encoder's tables against the numbers of TS 23.038: every character's
 septets, the coding scheme of every language, and what the octets of an
 encoded page are.
 */
module Charset {
  import opened Wrappers
  import opened Bits
  import opened Encoding

  /** Positions whose character has the same number in GSM and in ASCII. */
  predicate SharedWithAscii(v: int) {
    v == 0x0a || v == 0x0d || 0x20 <= v <= 0x23 || 0x25 <= v <= 0x3f || 0x41 <= v <= 0x5a || 0x61 <= v <= 0x7a
  }

  /** The character at a position of the GSM 7-bit default alphabet, by its Unicode number. */
  function StandardRune(v: octet): rune
    requires v < 128
  {
    if SharedWithAscii(v) then v
    else
      match v
      case 0x00 => 0x40 case 0x01 => 0xa3 case 0x02 => 0x24 case 0x03 => 0xa5
      case 0x04 => 0xe8 case 0x05 => 0xe9 case 0x06 => 0xf9 case 0x07 => 0xec
      case 0x08 => 0xf2 case 0x09 => 0xc7 case 0x0b => 0xd8 case 0x0c => 0xf8
      case 0x0e => 0xc5 case 0x0f => 0xe5 case 0x10 => 0x394 case 0x11 => 0x5f
      case 0x12 => 0x3a6 case 0x13 => 0x393 case 0x14 => 0x39b case 0x15 => 0x3a9
      case 0x16 => 0x3a0 case 0x17 => 0x3a8 case 0x18 => 0x3a3 case 0x19 => 0x398
      case 0x1a => 0x39e case 0x1c => 0xc6 case 0x1d => 0xe6 case 0x1e => 0xdf
      case 0x1f => 0xc9 case 0x24 => 0xa4 case 0x40 => 0xa1 case 0x5b => 0xc4
      case 0x5c => 0xd6 case 0x5d => 0xd1 case 0x5e => 0xdc case 0x5f => 0xa7
      case 0x60 => 0xbf case 0x7b => 0xe4 case 0x7c => 0xf6 case 0x7d => 0xf1
      case 0x7e => 0xfc case 0x7f => 0xe0
      case _ => 0x1b
  }

  lemma BeforeEscape(v: octet)
    requires v < 27
    ensures |BEFORE_ESCAPE| == 27 && BEFORE_ESCAPE[v] as int == StandardRune(v)
  {
  }

  lemma Signs(v: octet)
    requires 28 <= v < 65
    ensures |SIGNS| == 37 && SIGNS[v - 28] as int == StandardRune(v)
  {
    if v < 48 {
      assert SIGNS[v - 28] as int == StandardRune(v);
    } else {
      assert SIGNS[v - 28] as int == StandardRune(v);
    }
  }

  lemma Capitals(v: octet)
    requires 65 <= v < 97
    ensures |CAPITALS| == 32 && CAPITALS[v - 65] as int == StandardRune(v)
  {
  }

  lemma Smalls(v: octet)
    requires 97 <= v < 128
    ensures |SMALLS| == 31 && SMALLS[v - 97] as int == StandardRune(v)
  {
  }

  lemma FiveParts(a: string, b: string, c: string, d: string, e: string, k: nat)
    requires k < |a + b + c + d + e|
    ensures (a + b + c + d + e)[k]
         == if k < |a| then a[k]
            else if k - |a| < |b| then b[k - |a|]
            else if k - |a| - |b| < |c| then c[k - |a| - |b|]
            else if k - |a| - |b| - |c| < |d| then d[k - |a| - |b| - |c|]
            else e[k - |a| - |b| - |c| - |d|]
  {
  }

  lemma AlphabetAt(v: octet)
    requires v < 128
    ensures |ALPHABET| == 128 && ALPHABET[v] as int == StandardRune(v)
  {
    hide StandardRune;
    AlphabetSize();
    FiveParts(BEFORE_ESCAPE, "\U{1B}", SIGNS, CAPITALS, SMALLS, v);
    if v < 27 {
      BeforeEscape(v);
    } else if v == 27 {
      EscapeRune();
    } else if v < 65 {
      Signs(v);
    } else if v < 97 {
      Capitals(v);
    } else {
      Smalls(v);
    }
  }

  lemma EscapeRune()
    ensures StandardRune(0x1b) == 0x1b
  {
  }

  /** Where a character stands in the alphabet, if it does. */
  function Position(r: rune): octet {
    if r < 0x80 && SharedWithAscii(r) then r
    else
      match r
      case 0x40 => 0x00 case 0xa3 => 0x01 case 0x24 => 0x02 case 0xa5 => 0x03
      case 0xe8 => 0x04 case 0xe9 => 0x05 case 0xf9 => 0x06 case 0xec => 0x07
      case 0xf2 => 0x08 case 0xc7 => 0x09 case 0xd8 => 0x0b case 0xf8 => 0x0c
      case 0xc5 => 0x0e case 0xe5 => 0x0f case 0x394 => 0x10 case 0x5f => 0x11
      case 0x3a6 => 0x12 case 0x393 => 0x13 case 0x39b => 0x14 case 0x3a9 => 0x15
      case 0x3a0 => 0x16 case 0x3a8 => 0x17 case 0x3a3 => 0x18 case 0x398 => 0x19
      case 0x39e => 0x1a case 0xc6 => 0x1c case 0xe6 => 0x1d case 0xdf => 0x1e
      case 0xc9 => 0x1f case 0xa4 => 0x24 case 0xa1 => 0x40 case 0xc4 => 0x5b
      case 0xd6 => 0x5c case 0xd1 => 0x5d case 0xdc => 0x5e case 0xa7 => 0x5f
      case 0xbf => 0x60 case 0xe4 => 0x7b case 0xf6 => 0x7c case 0xf1 => 0x7d
      case 0xfc => 0x7e case 0xe0 => 0x7f
      case _ => 0x1b
  }

  lemma PositionOf(v: octet)
    requires v < 128
    ensures Position(StandardRune(v)) == v
  {
  }

  lemma {:induction false} LastPosition(r: rune, alphabet: string, v: nat)
    requires v < |alphabet| <= 128 && r != 0x1b && alphabet[v] as int == r
    requires forall k | v < k < |alphabet| :: alphabet[k] as int != r
    ensures BaseCode(r, alphabet) == Some(v)
    decreases |alphabet|
  {
    if v < |alphabet| - 1 {
      LastPosition(r, alphabet[..|alphabet| - 1], v);
    }
  }

  /** A character is one septet exactly when it stands at that position of the default alphabet. */
  lemma BaseSeptet(r: rune, v: octet)
    ensures RuneSeptets(r) == Some([v]) <==> v < 128 && v != 0x1b && StandardRune(v) == r
  {
    hide StandardRune, BaseCode, ExtensionCode;
    AlphabetSize();
    if v < 128 && v != 0x1b && StandardRune(v) == r {
      AlphabetAt(v);
      PositionOf(v);
      EscapeRune();
      PositionOf(0x1b);
      forall k: nat | v < k < 128
        ensures ALPHABET[k] as int != r
      {
        AlphabetAt(k);
        PositionOf(k);
      }
      LastPosition(r, ALPHABET, v);
    }
    if RuneSeptets(r) == Some([v]) {
      AlphabetAt(v);
      EscapeRune();
    }
  }

  /** The ten characters of the extension table follow an escape. */
  lemma EscapedSeptet(r: rune, v: octet)
    ensures RuneSeptets(r) == Some([0x1b, v])
       <==> (r, v) in {(0x0c, 0x0a), (0x5e, 0x14), (0x7b, 0x28), (0x7d, 0x29), (0x5c, 0x2f), (0x5b, 0x3c),
                       (0x7e, 0x3d), (0x5d, 0x3e), (0x7c, 0x40), (0x20ac, 0x65)}
  {
    hide BaseCode, StandardRune;
    if ExtensionCode(r).Some? {
      NotInBase(r);
    }
  }

  lemma NoPosition(r: rune)
    requires ExtensionCode(r).Some?
    ensures Position(r) == 0x1b && r != 0x1b
  {
  }

  lemma NotInBase(r: rune)
    requires ExtensionCode(r).Some?
    ensures BaseCode(r, ALPHABET).None?
  {
    hide BaseCode, StandardRune, Position;
    AlphabetSize();
    NoPosition(r);
    hide ExtensionCode;
    if BaseCode(r, ALPHABET).Some? {
      var v := BaseCode(r, ALPHABET).value;
      AlphabetAt(v);
      PositionOf(v);
      EscapeRune();
    }
  }

  /** Digits, letters, space, line ends and the punctuation that GSM shares with ASCII. */
  predicate Plain(c: rune) {
    || 0x30 <= c <= 0x39 || 0x41 <= c <= 0x5a || 0x61 <= c <= 0x7a
    || c in {0x0a, 0x0d, 0x20, 0x21, 0x22, 0x23, 0x25, 0x26, 0x27, 0x28, 0x29, 0x2a, 0x2b, 0x2c, 0x2d, 0x2e, 0x2f,
             0x3a, 0x3b, 0x3c, 0x3d, 0x3e, 0x3f}
  }

  lemma PlainIsItself(c: rune)
    requires Plain(c)
    ensures RuneSeptets(c) == Some([c])
  {
    hide RuneSeptets;
    BaseSeptet(c, c);
  }

  /** A plain text is sent as its ASCII numbers, in order. */
  lemma {:induction false} PlainText(text: seq<rune>)
    requires forall c | c in text :: Plain(c)
    ensures TextSeptets(text) == Some(text)
    decreases |text|
  {
    hide RuneSeptets, Plain;
    if text != [] {
      var init, last := text[..|text| - 1], text[|text| - 1];
      assert text == init + [last];
      PlainText(init);
      PlainIsItself(last);
    }
  }

  /** Every other character has no septets, and its text goes out in UCS-2. */
  lemma Unrepresentable(r: rune)
    ensures RuneSeptets(r).None? <==>
      && (forall v: octet | v < 128 && v != 0x1b :: StandardRune(v) != r)
      && r !in {0x0c, 0x5b, 0x5c, 0x5d, 0x5e, 0x7b, 0x7c, 0x7d, 0x7e, 0x20ac}
  {
    hide StandardRune, BaseCode;
    AlphabetSize();
    forall v: octet | v < 128 && v != 0x1b
      ensures StandardRune(v) == r ==> RuneSeptets(r) == Some([v])
    {
      BaseSeptet(r, v);
    }
    if BaseCode(r, ALPHABET).Some? {
      BaseSeptet(r, BaseCode(r, ALPHABET).value);
    }
  }

  // Languages

  /** A letter of a code in either case; two more characters are lowered to an i and a k. */
  predicate Letter(c: char, lower: char) {
    || c == lower
    || c as int == lower as int - 32
    || (lower == 'i' && c as int == 0x0130)
    || (lower == 'k' && c as int == 0x212a)
  }

  predicate Spells(language: string, code: string) {
    |language| == |code| && forall i | 0 <= i < |code| :: Letter(language[i], code[i])
  }

  lemma SpelledInEitherCase(language: string, code: string)
    requires forall c | c in code :: 'a' <= c <= 'z'
    ensures LowerText(language) == code <==> Spells(language, code)
  {
    forall i | 0 <= i < |code| && |language| == |code|
      ensures LowerCase(language[i]) == code[i] <==> Letter(language[i], code[i])
    {
      assert code[i] in code;
    }
    if LowerText(language) == code {
      assert forall i | 0 <= i < |code| :: LowerText(language)[i] == LowerCase(language[i]);
    }
    if Spells(language, code) {
      assert LowerText(language) == code;
    }
  }

  /** The schemes of TS 23.038 for the languages it names, and 0x0f for any other. */
  lemma SchemeOfLanguage(language: string)
    ensures Spells(language, "de") ==> Dcs(language) == 0x00
    ensures Spells(language, "en") ==> Dcs(language) == 0x01
    ensures Spells(language, "it") ==> Dcs(language) == 0x02
    ensures Spells(language, "fr") ==> Dcs(language) == 0x03
    ensures Spells(language, "es") ==> Dcs(language) == 0x04
    ensures Spells(language, "nl") ==> Dcs(language) == 0x05
    ensures Spells(language, "sv") ==> Dcs(language) == 0x06
    ensures Spells(language, "da") ==> Dcs(language) == 0x07
    ensures Spells(language, "pt") ==> Dcs(language) == 0x08
    ensures Spells(language, "fi") ==> Dcs(language) == 0x09
    ensures Spells(language, "no") ==> Dcs(language) == 0x0a
    ensures Spells(language, "el") ==> Dcs(language) == 0x0b
    ensures Spells(language, "tr") ==> Dcs(language) == 0x0c
    ensures Spells(language, "hu") ==> Dcs(language) == 0x0d
    ensures Spells(language, "pl") ==> Dcs(language) == 0x0e
    ensures Spells(language, "cs") ==> Dcs(language) == 0x20
    ensures Spells(language, "he") ==> Dcs(language) == 0x21
    ensures Spells(language, "ar") ==> Dcs(language) == 0x22
    ensures Spells(language, "ru") ==> Dcs(language) == 0x23
    ensures Spells(language, "is") ==> Dcs(language) == 0x24
    ensures !(Spells(language, "de") || Spells(language, "en") || Spells(language, "it") || Spells(language, "fr") ||
        Spells(language, "es") || Spells(language, "nl") || Spells(language, "sv") || Spells(language, "da") ||
        Spells(language, "pt") || Spells(language, "fi") || Spells(language, "no") || Spells(language, "el") ||
        Spells(language, "tr") || Spells(language, "hu") || Spells(language, "pl") || Spells(language, "cs") ||
        Spells(language, "he") || Spells(language, "ar") || Spells(language, "ru") || Spells(language, "is"))
      ==> Dcs(language) == 0x0f
  {
    hide LowerText, Spells, Dcs, SchemeOf;
    var code := LowerText(language);
    SpelledInEitherCase(language, "de");
    SpelledInEitherCase(language, "en");
    SpelledInEitherCase(language, "it");
    SpelledInEitherCase(language, "fr");
    SpelledInEitherCase(language, "es");
    SpelledInEitherCase(language, "nl");
    SpelledInEitherCase(language, "sv");
    SpelledInEitherCase(language, "da");
    SpelledInEitherCase(language, "pt");
    SpelledInEitherCase(language, "fi");
    SpelledInEitherCase(language, "no");
    SpelledInEitherCase(language, "el");
    SpelledInEitherCase(language, "tr");
    SpelledInEitherCase(language, "hu");
    SpelledInEitherCase(language, "pl");
    SpelledInEitherCase(language, "cs");
    SpelledInEitherCase(language, "he");
    SpelledInEitherCase(language, "ar");
    SpelledInEitherCase(language, "ru");
    SpelledInEitherCase(language, "is");
    SchemeOfCode(code);
    DcsIs(language);
  }

  lemma DcsIs(language: string)
    ensures Dcs(language) == SchemeOf(LowerText(language))
  {
  }

  lemma SchemeOfCode(code: string)
    ensures code == "de" ==> SchemeOf(code) == 0x00
    ensures code == "en" ==> SchemeOf(code) == 0x01
    ensures code == "it" ==> SchemeOf(code) == 0x02
    ensures code == "fr" ==> SchemeOf(code) == 0x03
    ensures code == "es" ==> SchemeOf(code) == 0x04
    ensures code == "nl" ==> SchemeOf(code) == 0x05
    ensures code == "sv" ==> SchemeOf(code) == 0x06
    ensures code == "da" ==> SchemeOf(code) == 0x07
    ensures code == "pt" ==> SchemeOf(code) == 0x08
    ensures code == "fi" ==> SchemeOf(code) == 0x09
    ensures code == "no" ==> SchemeOf(code) == 0x0a
    ensures code == "el" ==> SchemeOf(code) == 0x0b
    ensures code == "tr" ==> SchemeOf(code) == 0x0c
    ensures code == "hu" ==> SchemeOf(code) == 0x0d
    ensures code == "pl" ==> SchemeOf(code) == 0x0e
    ensures code == "cs" ==> SchemeOf(code) == 0x20
    ensures code == "he" ==> SchemeOf(code) == 0x21
    ensures code == "ar" ==> SchemeOf(code) == 0x22
    ensures code == "ru" ==> SchemeOf(code) == 0x23
    ensures code == "is" ==> SchemeOf(code) == 0x24
    ensures (code != "de" && code != "en" && code != "it" && code != "fr" && code != "es" && code != "nl" &&
        code != "sv" && code != "da" && code != "pt" && code != "fi" && code != "no" && code != "el" &&
        code != "tr" && code != "hu" && code != "pl" && code != "cs" && code != "he" && code != "ar" &&
        code != "ru" && code != "is")
      ==> SchemeOf(code) == 0x0f
  {
  }

  // Pages

  /** 82 octets carrying at most 93 septets, bit by bit from the least significant, then the filler 0x0d. */
  predicate SeptetPage(data: seq<octet>, septets: seq<octet>) {
    && |data| == 82 && |septets| <= 93
    && forall j, b | 0 <= j < 82 && 0 <= b < 8 ::
      if 8 * j >= 7 * |septets| then data[j] == 0x0d
      else
        var n := 8 * j + b;
        (data[j] / Pow2(b) % 2 == 1) == (n < 7 * |septets| && septets[n / 7] / Pow2(n % 7) % 2 == 1)
  }

  /** 82 octets carrying at most 41 characters, high octet first, then the filler 0x00 0x0d. */
  predicate UnitPage(data: seq<octet>, text: seq<rune>) {
    && |data| == 82 && |text| <= 41
    && forall k | 0 <= k < 41 ::
      if k < |text| then data[2 * k] == text[k] / 256 && data[2 * k + 1] == text[k] % 256
      else data[2 * k] == 0x00 && data[2 * k + 1] == 0x0d
  }

  lemma SeptetPageIs(septets: seq<octet>)
    requires |septets| <= 93
    ensures SeptetPage(GsmPageData(septets), septets)
  {
    hide Pow2, PackedOctet;
    var data, packed := GsmPageData(septets), Packed(septets);
    forall j, b | 0 <= j < 82 && 0 <= b < 8
      ensures
        if 8 * j >= 7 * |septets| then data[j] == 0x0d
        else
          var n := 8 * j + b;
          (data[j] / Pow2(b) % 2 == 1) == (n < 7 * |septets| && septets[n / 7] / Pow2(n % 7) % 2 == 1)
    {
      if 8 * j < 7 * |septets| {
        assert data[j] == packed[j];
        PackedOctetBit(septets, j, b);
      }
    }
  }

  lemma UnitPageIs(text: seq<rune>)
    requires |text| <= 41 && AllUnits(text)
    ensures UnitPage(Ucs2PageData(text), text)
  {
    hide UnitOctets;
    var data := Ucs2PageData(text);
    forall k | 0 <= k < 41
      ensures
        if k < |text| then data[2 * k] == text[k] / 256 && data[2 * k + 1] == text[k] % 256
        else data[2 * k] == 0x00 && data[2 * k + 1] == 0x0d
    {
      if k < |text| {
        UnitOctetsAt(text, k);
        assert data[2 * k] == UnitOctets(text)[2 * k] && data[2 * k + 1] == UnitOctets(text)[2 * k + 1];
      }
    }
  }

  /** Every page of an accepted text, octet by octet. */
  lemma PagesAre(text: seq<rune>, language: string, e: Content)
    requires IsEncoding(text, language, e)
    ensures 1 <= |e.pages| <= 15
    ensures forall i | 0 <= i < |e.pages| ::
      && e.pages[i].number == i + 1 && e.pages[i].total == |e.pages|
      && e.pages[i].pageParameter == 16 * (i + 1) + |e.pages|
    ensures match TextSeptets(text)
      case Some(septets) =>
        && e.dcs == Dcs(language) && |e.pages| == (|septets| + 92) / 93
        && forall i | 0 <= i < |e.pages| :: SeptetPage(e.pages[i].data, Piece(septets, 93, i))
      case None =>
        && e.dcs == 0x11 && |e.pages| == (|text| + 40) / 41
        && forall i | 0 <= i < |e.pages| :: UnitPage(e.pages[i].data, Piece(text, 41, i))
  {
    hide SeptetPage, UnitPage, GsmPageData, Ucs2PageData, TextSeptets, Dcs, Piece, AllUnits;
    match TextSeptets(text)
    case Some(septets) =>
      forall i | 0 <= i < |e.pages|
        ensures SeptetPage(e.pages[i].data, Piece(septets, 93, i))
      {
        SeptetPageIs(Piece(septets, 93, i));
      }
    case None =>
      forall i | 0 <= i < |e.pages|
        ensures UnitPage(e.pages[i].data, Piece(text, 41, i))
      {
        UnitPageIs(Piece(text, 41, i));
      }
  }

  /** Texts of 1 to 1395 septets and, beyond the GSM alphabets, of 1 to 615 characters of the basic plane. */
  lemma AcceptedTexts(text: seq<rune>)
    ensures Accepts(text) <==>
      && 1 <= |text| <= 1395
      && match TextSeptets(text)
         case Some(septets) => |septets| <= 1395
         case None => |text| <= 615 && forall k | 0 <= k < |text| :: text[k] <= 0xffff && !(0xd800 <= text[k] <= 0xdfff)
  {
    hide TextSeptets;
  }
}
