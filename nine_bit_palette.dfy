/**
 * RetroLib/Palettes/9bitPalette.cs: the colour word encoder and decoder, the BEX
 * palette text ("$XXX" entries joined by ", ") and the raw big-endian palette bytes.
 *
 * The encoder packs the high nibble of each channel with red highest; the decoder
 * reads three-bit fields with blue highest. The two are not inverse to each other
 * (see `RedDoesNotRoundTrip`).
 */
module NineBitPalette {
  import opened Wrappers
  import opened Arith
  import opened Enumeration
  import opened Drawing
  import opened Text
  import opened BinaryIO
  import opened Sequences
  import Palette

  /** `ConvertColorTo9bit`: `(ushort)((R / 16 << 8) | (G / 16 << 4) | B / 16)`; the three nibbles
      do not overlap, so the ORs add them (`NibblesDisjoint`). */
  function ConvertColorTo9bit(c: Color): (v: nat)
    ensures v <= 0xFFF
  {
    (c.r / 16) * 0x100 + (c.g / 16) * 0x10 + c.b / 16
  }

  /** Nibbles shifted to distinct positions do not overlap, so OR is addition. */
  lemma NibblesDisjoint(r: bv16, g: bv16, b: bv16)
    requires r < 16 && g < 16 && b < 16
    ensures (r << 8) | (g << 4) | b == r * 0x100 + g * 0x10 + b
  {
  }

  /** The encoder keeps the high nibble of each channel, red highest: a word determines those nibbles. */
  lemma EncoderNibbles(c: Color)
    ensures ConvertColorTo9bit(c) / 0x100 == c.r / 16
    ensures ConvertColorTo9bit(c) / 0x10 % 0x10 == c.g / 16
    ensures ConvertColorTo9bit(c) % 0x10 == c.b / 16
  {
  }

  /** Bits 1-3 of an int, `(v >> 1) & 7` on its two's-complement form (floor division, non-negative remainder). */
  function RedField(v: int): (f: nat)
    ensures f < 8
  {
    (v / 2) % 8
  }

  /** Bits 5-7, `(v >> 5) & 7`. */
  function GreenField(v: int): (f: nat)
    ensures f < 8
  {
    (v / 32) % 8
  }

  /** Bits 9-11, `(v >> 9) & 7`. */
  function BlueField(v: int): (f: nat)
    ensures f < 8
  {
    (v / 512) % 8
  }

  /**
   * `Convert9bitToColor`: blue from bits 9-11, green from bits 5-7, red from bits 1-3,
   * each shifted left by 5 into an opaque colour.
   */
  function Convert9bitToColor(v: int): (c: Color)
    ensures c.a == 255
    ensures c.r % 32 == 0 && c.g % 32 == 0 && c.b % 32 == 0
    ensures c.r <= 224 && c.g <= 224 && c.b <= 224
  {
    FromRgb(RedField(v) * 32, GreenField(v) * 32, BlueField(v) * 32)
  }

  /** The word the decoder reads back as the channels (32r, 32g, 32b). */
  function DecoderWord(r: nat, g: nat, b: nat): (v: nat)
    requires r < 8 && g < 8 && b < 8
    ensures v <= 0xEEE
  {
    b * 512 + g * 32 + r * 2
  }

  /** The decoder inverts its own layout. */
  lemma DecoderWordDecodes(r: nat, g: nat, b: nat)
    requires r < 8 && g < 8 && b < 8
    ensures Convert9bitToColor(DecoderWord(r, g, b)) == FromRgb(r * 32, g * 32, b * 32)
  {
    var w := DecoderWord(r, g, b);
    QuotRem(b * 256 + g * 16 + r, 0, 2);
    assert w / 2 == (b * 32 + g * 2) * 8 + r;
    QuotRem(b * 32 + g * 2, r, 8);
    assert RedField(w) == r;
    QuotRem(b * 16 + g, r * 2, 32);
    assert w / 32 == b * 2 * 8 + g;
    QuotRem(b * 2, g, 8);
    assert GreenField(w) == g;
    QuotRem(b, g * 32 + r * 2, 512);
    assert w / 512 == b;
    QuotRem(0, b, 8);
    assert BlueField(w) == b;
  }

  /** Bits 0, 4 and 8 and everything from bit 12 up are ignored by the decoder. */
  lemma DecoderIgnoresOtherBits(v: int, b0: nat, b4: nat, b8: nat, high: int)
    requires b0 < 2 && b4 < 2 && b8 < 2
    ensures Convert9bitToColor(v) == Convert9bitToColor(
      DecoderWord(RedField(v), GreenField(v), BlueField(v)) + b0 + b4 * 16 + b8 * 256 + high * 4096)
  {
    var r, g, b := RedField(v), GreenField(v), BlueField(v);
    QuotRem(b * 256 + b8 * 128 + g * 16 + b4 * 8 + r + high * 2048, b0, 2);
    QuotRem(b * 32 + b8 * 16 + g * 2 + b4 + high * 256, r, 8);
    QuotRem(b * 16 + b8 * 8 + g + high * 128, r * 2 + b0 + b4 * 16, 32);
    QuotRem(b * 2 + b8 + high * 16, g, 8);
    QuotRem(b + high * 8, g * 32 + r * 2 + b0 + b4 * 16 + b8 * 256, 512);
    QuotRem(high, b, 8);
  }

  lemma BlackRoundTrip()
    ensures ConvertColorTo9bit(FromRgb(0, 0, 0)) == 0
    ensures Convert9bitToColor(0) == FromRgb(0, 0, 0)
  {
    assert RedField(0) == 0 && GreenField(0) == 0 && BlueField(0) == 0;
  }

  lemma WhiteEncodesToFFF()
    ensures ConvertColorTo9bit(FromRgb(255, 255, 255)) == 0xFFF
    ensures Convert9bitToColor(0xFFF) == FromRgb(224, 224, 224)
  {
  }

  /** Pure red encodes to 0xF00, which the decoder reads as blue: decoding does not invert encoding. */
  lemma RedDoesNotRoundTrip()
    ensures ConvertColorTo9bit(FromRgb(255, 0, 0)) == 0xF00
    ensures Convert9bitToColor(0xF00) == FromRgb(0, 0, 224)
    ensures Convert9bitToColor(ConvertColorTo9bit(FromRgb(255, 0, 0))) != FromRgb(255, 0, 0)
  {
    assert Convert9bitToColor(0xF00) == FromRgb(0, 0, 224);
  }

  /** `ConvertColorsTo9bit`: every colour of the set, in enumeration order. */
  function ConvertColorsTo9bit(palette: seq<Color>): (words: seq<nat>)
    ensures |words| == |palette|
    ensures forall i :: 0 <= i < |palette| ==> words[i] == ConvertColorTo9bit(palette[i]) && words[i] <= 0xFFF
  {
    seq(|palette|, i requires 0 <= i < |palette| => ConvertColorTo9bit(palette[i]))
  }

  /** Every decoded word, before the set drops repetitions. */
  function DecodeWords(words: seq<int>): (colors: seq<Color>)
    ensures |colors| == |words|
    ensures forall i :: 0 <= i < |words| ==> colors[i] == Convert9bitToColor(words[i])
  {
    if words == [] then [] else DecodeWords(words[..|words| - 1]) + [Convert9bitToColor(words[|words| - 1])]
  }

  /** The set of decoded words: no colour twice, no more colours than words, and exactly the colours of the words. */
  lemma DecodedSet(words: seq<int>)
    ensures Distinct(Dedup(DecodeWords(words))) && |Dedup(DecodeWords(words))| <= |words|
    ensures forall c :: c in Dedup(DecodeWords(words)) <==>
      exists i :: 0 <= i < |words| && Convert9bitToColor(words[i]) == c
  {
    var decoded := DecodeWords(words);
    DedupDistinct(decoded);
    DedupLength(decoded);
    DedupMembers(decoded);
    forall c | c in Dedup(decoded)
      ensures exists i :: 0 <= i < |words| && Convert9bitToColor(words[i]) == c
    {
      var i :| 0 <= i < |decoded| && decoded[i] == c;
    }
    forall i | 0 <= i < |words|
      ensures Convert9bitToColor(words[i]) in Dedup(decoded)
    {
      assert decoded[i] == Convert9bitToColor(words[i]);
    }
  }

  /** `Convert9bitToColors`: decodes the words into a HashSet, which collapses repeated colours. */
  method Convert9bitToColors(palette9bit: seq<int>) returns (palette: seq<Color>)
    ensures palette == Dedup(DecodeWords(palette9bit))
    ensures Distinct(palette) && |palette| <= |palette9bit|
    ensures forall c :: c in palette <==> exists i :: 0 <= i < |palette9bit| && Convert9bitToColor(palette9bit[i]) == c
  {
    palette := [];
    for i := 0 to |palette9bit|
      invariant palette == Dedup(DecodeWords(palette9bit[..i]))
    {
      var color := Convert9bitToColor(palette9bit[i]);
      assert DecodeWords(palette9bit[..i + 1]) == DecodeWords(palette9bit[..i]) + [color] by {
        assert palette9bit[..i + 1][..i] == palette9bit[..i];
      }
      DedupSnoc(DecodeWords(palette9bit[..i]), color);
      palette := Add(palette, color);
    }
    assert palette9bit[..|palette9bit|] == palette9bit;
    DecodedSet(palette9bit);
  }

  /** One palette entry of the BEX text: `$` and the word as "X3". */
  function HexEntry(v: nat): string {
    "$" + FormatHex(v, 3)
  }

  /** `GenerateHexPaletteString`: the entries of the encoded palette joined by ", ". */
  function GenerateHexPaletteString(palette: seq<Color>): (r: string)
    ensures |r| == if palette == [] then 0 else 6 * |palette| - 2
  {
    HexEntriesLength(palette);
    JoinLength(HexEntries(palette), ", ", 4);
    Join(HexEntries(palette), ", ")
  }

  /** The entries of the hex list, one per colour. */
  function HexEntries(palette: seq<Color>): seq<string> {
    seq(|palette|, i requires 0 <= i < |palette| => HexEntry(ConvertColorTo9bit(palette[i])))
  }

  /** Every entry is four characters long, since every word is at most 0xFFF. */
  lemma HexEntriesLength(palette: seq<Color>)
    ensures forall i :: 0 <= i < |HexEntries(palette)| ==> |HexEntries(palette)[i]| == 4
  {
    forall i | 0 <= i < |HexEntries(palette)|
      ensures |HexEntries(palette)[i]| == 4
    {
      HexEntryShape(ConvertColorTo9bit(palette[i]));
    }
  }

  /** Each entry is a dollar sign and exactly three uppercase hexadecimal digits that read back as the word. */
  lemma HexEntryShape(v: nat)
    requires v <= 0xFFF
    ensures |HexEntry(v)| == 4 && HexEntry(v)[0] == '$'
    ensures AllHexDigits(HexEntry(v)[1..]) && HexNumber(HexEntry(v)[1..]) == v
    ensures forall i :: 1 <= i < 4 ==> HexEntry(v)[i] in "0123456789ABCDEF"
  {
    FormatHexThree(v);
    assert HexEntry(v)[1..] == HexDigits(v, 3);
    UppercaseDigits(v, 3);
  }

  /** The formatter emits only uppercase digits. */
  lemma {:induction false} UppercaseDigits(v: nat, n: nat)
    ensures forall i :: 0 <= i < n ==> HexDigits(v, n)[i] in "0123456789ABCDEF"
  {
    if n > 0 {
      UppercaseDigits(v / 16, n - 1);
      var d := v % 16;
      assert HexChar(d) == "0123456789ABCDEF"[d];
    }
  }

  /** `GenerateBasiePaletteString` given the file stem: the stem with spaces turned into
      underscores, then "_pal: dataint" and five spaces, then the hex list. */
  function GenerateBasiePaletteString(palette: seq<Color>, fileStem: string): (r: string)
    ensures |r| == |fileStem| + 18 + |GenerateHexPaletteString(palette)|
    ensures forall i :: 0 <= i < |fileStem| ==> r[i] == (if fileStem[i] == ' ' then '_' else fileStem[i])
    ensures r[|fileStem|..|fileStem| + 18] == "_pal: dataint     "
    ensures r[|fileStem| + 18..] == GenerateHexPaletteString(palette)
  {
    ReplaceChar(fileStem, ' ', '_') + "_pal: dataint     " + GenerateHexPaletteString(palette)
  }

  /** The hex text of one comma-separated part: what follows its first `$`, trimmed; nothing if it has no `$`. */
  function FieldOf(part: string): seq<string> {
    var k := IndexOf(part, '$');
    if k == -1 then [] else [Trim(part[k + 1..])]
  }

  function HexFields(parts: seq<string>): seq<string> {
    if parts == [] then [] else HexFields(parts[..|parts| - 1]) + FieldOf(parts[|parts| - 1])
  }

  /** `int.Parse(hex, HexNumber)` then `Convert9bitToColor` for every field, stopping at the first failure. */
  function DecodeFields(fields: seq<string>): Result<seq<Color>> {
    if fields == [] then Ok([])
    else
      match DecodeFields(fields[..|fields| - 1])
      case Err(e) => Err(e)
      case Ok(colors) =>
        match ParseHexInt32(fields[|fields| - 1])
        case Err(e) => Err(e)
        case Ok(v) => Ok(colors + [Convert9bitToColor(v)])
  }

  /** What `ParseBexPaletteString` computes: the decoded colours of all `$` fields, as a set. */
  function ParseBex(content: string): Result<seq<Color>> {
    DecodeSet(HexFields(Split(content, ',')))
  }

  /** The decoded fields as a set, or the first parse error. */
  function DecodeSet(fields: seq<string>): Result<seq<Color>> {
    match DecodeFields(fields)
    case Err(e) => Err(e)
    case Ok(colors) => Ok(Dedup(colors))
  }

  /** `ParseBexPaletteString`: collects the `$` fields, then parses and decodes them into a HashSet. */
  method ParseBexPaletteString(bexContent: string) returns (r: Result<seq<Color>>)
    ensures r == ParseBex(bexContent)
    ensures r.Err? ==> r.error in {FormatException, OverflowException}
    ensures r.Ok? ==> Distinct(r.value)
  {
    var parts := Split(bexContent, ',');
    var hexValues: seq<string> := [];
    for i := 0 to |parts|
      invariant hexValues == HexFields(parts[..i])
    {
      HexFieldsStep(parts, i);
      FieldOfPart(parts[i]);
      var dollarIndex := IndexOf(parts[i], '$');
      if dollarIndex != -1 {
        var hex := Trim(parts[i][dollarIndex + 1..]);
        hexValues := hexValues + [hex];
      } else {
        assert hexValues + [] == hexValues;
      }
    }
    assert parts[..|parts|] == parts;
    var palette: seq<Color> := [];
    ghost var colors: seq<Color> := [];
    for i := 0 to |hexValues|
      invariant DecodeFields(hexValues[..i]) == Ok(colors)
      invariant palette == Dedup(colors)
    {
      DecodeFieldsStep(hexValues, i);
      var parsed := ParseHexInt32(hexValues[i]);
      if parsed.Err? {
        DecodeFieldsError(hexValues, i + 1);
        assert DecodeSet(hexValues) == Err(parsed.error);
        return Err(parsed.error);
      }
      var color := Convert9bitToColor(parsed.value);
      DedupSnoc(colors, color);
      colors := colors + [color];
      palette := Add(palette, color);
    }
    assert hexValues[..|hexValues|] == hexValues;
    assert DecodeSet(hexValues) == Ok(palette);
    DedupDistinct(colors);
    return Ok(palette);
  }

  /** The fields of one more part are those of the earlier parts followed by its own. */
  lemma HexFieldsStep(parts: seq<string>, i: nat)
    requires i < |parts|
    ensures HexFields(parts[..i + 1]) == HexFields(parts[..i]) + FieldOf(parts[i])
  {
    assert parts[..i + 1][..i] == parts[..i];
  }

  /** A part's field, by whether it holds a `$`. */
  lemma FieldOfPart(part: string)
    ensures IndexOf(part, '$') == -1 ==> FieldOf(part) == []
    ensures IndexOf(part, '$') != -1 ==> FieldOf(part) == [Trim(part[IndexOf(part, '$') + 1..])]
  {
  }

  /** Decoding one more field extends the colours, or fails with that field's parse error. */
  lemma DecodeFieldsStep(fields: seq<string>, i: nat)
    requires i < |fields| && DecodeFields(fields[..i]).Ok?
    ensures ParseHexInt32(fields[i]).Err? ==> DecodeFields(fields[..i + 1]) == Err(ParseHexInt32(fields[i]).error)
    ensures ParseHexInt32(fields[i]).Ok? ==>
      DecodeFields(fields[..i + 1]) == Ok(DecodeFields(fields[..i]).value + [Convert9bitToColor(ParseHexInt32(fields[i]).value)])
  {
    assert fields[..i + 1][..i] == fields[..i];
  }

  /** An error in a prefix of the fields is the error of all of them. */
  lemma {:induction false} DecodeFieldsError(fields: seq<string>, n: nat)
    requires n <= |fields| && DecodeFields(fields[..n]).Err?
    ensures DecodeFields(fields) == DecodeFields(fields[..n])
    ensures DecodeFields(fields).error in {FormatException, OverflowException}
  {
    if n < |fields| {
      assert fields[..|fields| - 1][..n] == fields[..n];
      DecodeFieldsError(fields[..|fields| - 1], n);
    } else {
      assert fields[..n] == fields;
      DecodeFieldsErrorKind(fields);
    }
  }

  lemma {:induction false} DecodeFieldsErrorKind(fields: seq<string>)
    ensures DecodeFields(fields).Err? ==> DecodeFields(fields).error in {FormatException, OverflowException}
  {
    if fields != [] {
      DecodeFieldsErrorKind(fields[..|fields| - 1]);
    }
  }

  /** Every colour word written by the generator, decoded. */
  function DecodedPalette(palette: seq<Color>): seq<Color> {
    seq(|palette|, i requires 0 <= i < |palette| => Convert9bitToColor(ConvertColorTo9bit(palette[i])))
  }

  /**
   * Parsing the generated hex list yields the set of the decoded encoder words: the
   * parser accepts everything the generator writes, and loses only what the codec loses.
   */
  lemma ParseGeneratedHex(palette: seq<Color>)
    ensures ParseBex(GenerateHexPaletteString(palette)) == Ok(Dedup(DecodedPalette(palette)))
  {
    ParsePrefixedHex(palette, "");
    assert "" + GenerateHexPaletteString(palette) == GenerateHexPaletteString(palette);
  }

  /** The BASIC-style line parses to the same set, provided the file stem holds no comma and no dollar sign. */
  lemma ParseGeneratedBasie(palette: seq<Color>, fileStem: string)
    requires ',' !in fileStem && '$' !in fileStem
    ensures ParseBex(GenerateBasiePaletteString(palette, fileStem)) == Ok(Dedup(DecodedPalette(palette)))
  {
    var pre := ReplaceChar(fileStem, ' ', '_') + "_pal: dataint     ";
    assert ',' !in pre && '$' !in pre by {
      forall i | 0 <= i < |fileStem|
        ensures ReplaceChar(fileStem, ' ', '_')[i] != ',' && ReplaceChar(fileStem, ' ', '_')[i] != '$'
      {
      }
    }
    ParsePrefixedHex(palette, pre);
  }

  /** The hex list after a prefix free of commas and dollar signs parses to the decoded set. */
  lemma ParsePrefixedHex(palette: seq<Color>, pre: string)
    requires ',' !in pre && '$' !in pre
    ensures ParseBex(pre + GenerateHexPaletteString(palette)) == Ok(Dedup(DecodedPalette(palette)))
  {
    var words := ConvertColorsTo9bit(palette);
    var fields := DigitFields(words);
    assert HexEntries(palette) == DollarEntries(fields);
    if palette == [] {
      ParsePrefixOnly(pre);
      assert pre + Join([], ", ") == pre;
      assert DecodedPalette(palette) == [];
    } else {
      DigitFieldsAreHex(words);
      ParseDollarList(pre, fields);
      DecodeDigitFields(words);
      assert DecodeWords(words) == DecodedPalette(palette);
    }
  }

  /** A text without commas and dollar signs holds no field. */
  lemma ParsePrefixOnly(pre: string)
    requires ',' !in pre && '$' !in pre
    ensures HexFields(Split(pre, ',')) == [] && ParseBex(pre) == Ok([])
  {
    SingleSplit(pre, ',');
    assert HexFields([pre]) == HexFields([]) + FieldOf(pre);
  }

  /** `$` before each field. */
  function DollarEntries(fields: seq<string>): (entries: seq<string>)
    ensures |entries| == |fields|
  {
    seq(|fields|, i requires 0 <= i < |fields| => "$" + fields[i])
  }

  /** Dollar-prefixed hexadecimal fields joined by ", " after a prefix free of commas and dollar signs
      split back into exactly those fields. */
  lemma ParseDollarList(pre: string, fields: seq<string>)
    requires ',' !in pre && '$' !in pre
    requires |fields| >= 1 && forall i :: 0 <= i < |fields| ==> AllHexDigits(fields[i])
    ensures HexFields(Split(pre + Join(DollarEntries(fields), ", "), ',')) == fields
  {
    SplitDollarList(pre, fields);
    HexFieldsOfParts(Split(pre + Join(DollarEntries(fields), ", "), ','), pre, fields);
  }

  /** The pieces of the joined list: the prefix with the first entry, then each later entry after a space. */
  lemma SplitDollarList(pre: string, fields: seq<string>)
    requires ',' !in pre
    requires |fields| >= 1 && forall i :: 0 <= i < |fields| ==> AllHexDigits(fields[i])
    ensures var split := Split(pre + Join(DollarEntries(fields), ", "), ',');
      |split| == |fields| && split[0] == pre + ("$" + fields[0])
      && forall i :: 1 <= i < |fields| ==> split[i] == " " + ("$" + fields[i])
  {
    var entries := DollarEntries(fields);
    var parts := [pre + entries[0]] + entries[1..];
    DollarPartsNoComma(pre, fields);
    JoinPrefix(entries, pre, ", ");
    assert ", " == [','] + " ";
    SplitOfJoin(parts, ',', " ");
  }

  lemma DollarPartsNoComma(pre: string, fields: seq<string>)
    requires ',' !in pre
    requires |fields| >= 1 && forall i :: 0 <= i < |fields| ==> AllHexDigits(fields[i])
    ensures var entries := DollarEntries(fields);
      forall i :: 0 <= i < |fields| ==> ',' !in ([pre + entries[0]] + entries[1..])[i]
  {
    var entries := DollarEntries(fields);
    var parts := [pre + entries[0]] + entries[1..];
    forall i | 0 <= i < |parts|
      ensures ',' !in parts[i]
    {
      NoCommaInHex(fields[i]);
    }
  }

  lemma NoCommaInHex(digits: string)
    requires AllHexDigits(digits)
    ensures ',' !in digits && '$' !in digits
  {
    assert !IsHexDigit(',') && !IsHexDigit('$');
  }

  /** A part made of text without `$`, then `$` and hexadecimal digits, has those digits as its field. */
  lemma FieldOfEntry(pre: string, digits: string)
    requires '$' !in pre && AllHexDigits(digits)
    ensures FieldOf(pre + ("$" + digits)) == [digits]
  {
    var part := pre + ("$" + digits);
    assert part == pre + ['$'] + digits;
    IndexOfAfter(pre, '$', digits);
    assert part[|pre| + 1..] == digits;
    TrimHexDigits(digits);
  }

  /** Parts that each hold exactly one field yield those fields, in order. */
  lemma {:induction false} HexFieldsOfSingles(parts: seq<string>, fields: seq<string>)
    requires |parts| == |fields|
    requires forall i {:trigger FieldOf(parts[i])} :: 0 <= i < |parts| ==> FieldOf(parts[i]) == [fields[i]]
    ensures HexFields(parts) == fields
  {
    if parts != [] {
      var n := |parts| - 1;
      assert fields == fields[..n] + [fields[n]];
      HexFieldsOfSingles(parts[..n], fields[..n]);
      assert HexFields(parts) == HexFields(parts[..n]) + FieldOf(parts[n]);
    }
  }

  /** The pieces of the generated text yield exactly their hexadecimal fields, in order. */
  lemma HexFieldsOfParts(split: seq<string>, pre: string, fields: seq<string>)
    requires '$' !in pre
    requires |split| == |fields| >= 1 && forall i :: 0 <= i < |fields| ==> AllHexDigits(fields[i])
    requires split[0] == pre + ("$" + fields[0])
    requires forall i :: 1 <= i < |fields| ==> split[i] == " " + ("$" + fields[i])
    ensures HexFields(split) == fields
  {
    forall i | 0 <= i < |split|
      ensures FieldOf(split[i]) == [fields[i]]
    {
      if i == 0 {
        FieldOfEntry(pre, fields[0]);
      } else {
        FieldOfEntry(" ", fields[i]);
      }
    }
    HexFieldsOfSingles(split, fields);
  }

  /** A text without the separator is a single piece. */
  lemma SingleSplit(s: string, c: char)
    requires c !in s
    ensures Split(s, c) == [s]
  {
    SplitAppendPiece([], s, c);
    assert [] + s == s;
  }

  lemma {:induction false} JoinPrefix(parts: seq<string>, pre: string, sep: string)
    requires |parts| >= 1
    ensures Join([pre + parts[0]] + parts[1..], sep) == pre + Join(parts, sep)
  {
    if |parts| > 1 {
      var front := parts[..|parts| - 1];
      JoinPrefix(front, pre, sep);
      var q := [pre + parts[0]] + parts[1..];
      assert q[..|q| - 1] == [pre + front[0]] + front[1..];
    }
  }

  /** The three-digit fields of the words. */
  function DigitFields(words: seq<nat>): (fields: seq<string>)
    ensures |fields| == |words|
  {
    seq(|words|, i requires 0 <= i < |words| => FormatHex(words[i], 3))
  }

  lemma DigitFieldsAreHex(words: seq<nat>)
    requires forall i :: 0 <= i < |words| ==> words[i] <= 0xFFF
    ensures forall i :: 0 <= i < |words| ==> AllHexDigits(DigitFields(words)[i])
  {
    forall i | 0 <= i < |words|
      ensures AllHexDigits(DigitFields(words)[i])
    {
      FormatHexThree(words[i]);
    }
  }

  /** Three-digit fields of words up to 0xFFF all parse, and decode to the words' colours. */
  lemma {:induction false} DecodeDigitFields(words: seq<nat>)
    requires forall i :: 0 <= i < |words| ==> words[i] <= 0xFFF
    ensures DecodeFields(DigitFields(words)) == Ok(DecodeWords(words))
  {
    if words != [] {
      var n := |words| - 1;
      DecodeDigitFields(words[..n]);
      assert DigitFields(words)[..n] == DigitFields(words[..n]);
      FormatHexThree(words[n]);
    }
  }

  /** `ExportToBin`: the encoded palette of the image, two bytes per colour, high byte first. */
  method ExportToBin(img: Image, writer: ByteWriter)
    modifies writer
    ensures writer.bytes == old(writer.bytes) + U16sBE(ConvertColorsTo9bit(Palette.PaletteOf(img)))
  {
    var palette := Palette.GetPaletteStright(img);
    var colors := ConvertColorsTo9bit(palette);
    for i := 0 to |colors|
      invariant writer.bytes == old(writer.bytes) + U16sBE(colors[..i])
    {
      U16sBESnoc(colors, i);
      var firstByte := colors[i] / 0x100;
      var secondByte := colors[i] % 0x100;
      writer.Write(firstByte);
      writer.Write(secondByte);
      AppendTwo(old(writer.bytes), U16sBE(colors[..i]), firstByte, secondByte);
    }
    assert colors[..|colors|] == colors;
  }
}
