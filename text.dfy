/**
 * The .NET string operations the palette text format and the tile keys rely on:
 * hexadecimal formatting ("X3", "X8"), `int.Parse` with `NumberStyles.HexNumber`,
 * `string.Split(char)`, `string.Join`, `string.Trim` and `string.Replace`.
 */
module Text {
  import opened Wrappers
  import opened Sequences

  /** An uppercase hexadecimal digit. */
  function HexChar(d: int): (ch: char)
    requires 0 <= d < 16
  {
    if d < 10 then ('0' as int + d) as char else ('A' as int + d - 10) as char
  }

  /** The value of a hexadecimal digit of either case, or -1 for any other character. */
  function HexValue(ch: char): (d: int)
    ensures -1 <= d < 16
  {
    if '0' <= ch <= '9' then ch as int - '0' as int
    else if 'A' <= ch <= 'F' then ch as int - 'A' as int + 10
    else if 'a' <= ch <= 'f' then ch as int - 'a' as int + 10
    else -1
  }

  predicate IsHexDigit(ch: char) {
    HexValue(ch) >= 0
  }

  predicate AllHexDigits(s: string) {
    forall i :: 0 <= i < |s| ==> IsHexDigit(s[i])
  }

  function Pow16(n: nat): (p: nat)
    ensures p >= 1
  {
    if n == 0 then 1 else 16 * Pow16(n - 1)
  }

  /** The low n hexadecimal digits of v, most significant first. */
  function HexDigits(v: nat, n: nat): (s: string)
    ensures |s| == n
  {
    if n == 0 then "" else HexDigits(v / 16, n - 1) + [HexChar(v % 16)]
  }

  /** The value of a string of hexadecimal digits (the empty string reads as 0). */
  function HexNumber(s: string): nat
    requires AllHexDigits(s)
  {
    if s == [] then 0 else HexNumber(s[..|s| - 1]) * 16 + HexValue(s[|s| - 1])
  }

  /** Reading back n digits of a value below 16^n gives the value: the digits are its inverse. */
  lemma {:induction false} HexDigitsRoundTrip(v: nat, n: nat)
    requires v < Pow16(n)
    ensures AllHexDigits(HexDigits(v, n)) && HexNumber(HexDigits(v, n)) == v
  {
    if n > 0 {
      HexDigitsRoundTrip(v / 16, n - 1);
      var s := HexDigits(v, n);
      assert s[..|s| - 1] == HexDigits(v / 16, n - 1);
    }
  }

  /** Values below 16^n have distinct n-digit representations. */
  lemma HexDigitsInjective(v: nat, w: nat, n: nat)
    requires v < Pow16(n) && w < Pow16(n)
    requires HexDigits(v, n) == HexDigits(w, n)
    ensures v == w
  {
    HexDigitsRoundTrip(v, n);
    HexDigitsRoundTrip(w, n);
  }

  /** The number of significant hexadecimal digits of v (at least one). */
  function DigitCount(v: nat): (n: nat)
    ensures n >= 1
  {
    if v < 16 then 1 else 1 + DigitCount(v / 16)
  }

  lemma {:induction false} DigitCountBound(v: nat, n: nat)
    requires 1 <= n && v < Pow16(n)
    ensures DigitCount(v) <= n
  {
    if v >= 16 {
      DigitCountBound(v / 16, n - 1);
    }
  }

  /** `v.ToString("X" + n)` for a non-negative v: uppercase, at least n digits, more when v needs them. */
  function FormatHex(v: nat, n: nat): string {
    HexDigits(v, if n < DigitCount(v) then DigitCount(v) else n)
  }

  /** "X3" of a value below 0x1000 is exactly three digits. */
  lemma FormatHexThree(v: nat)
    requires v < 0x1000
    ensures FormatHex(v, 3) == HexDigits(v, 3)
    ensures AllHexDigits(FormatHex(v, 3)) && HexNumber(FormatHex(v, 3)) == v
  {
    DigitCountBound(v, 3);
    HexDigitsRoundTrip(v, 3);
  }

  predicate IsInt32(v: int) {
    -0x8000_0000 <= v < 0x8000_0000
  }

  /** `v.ToString("X8")` for an int: its 32-bit two's-complement word in exactly eight digits. */
  function FormatX8(v: int): (s: string)
    requires IsInt32(v)
    ensures |s| == 8
  {
    HexDigits(v % 0x1_0000_0000, 8)
  }

  /** Distinct ints have distinct "X8" texts. */
  lemma FormatX8Injective(v: int, w: int)
    requires IsInt32(v) && IsInt32(w)
    requires FormatX8(v) == FormatX8(w)
    ensures v == w
  {
    Int32Word(v);
    Int32Word(w);
    Pow16Eight();
    HexDigitsInjective(v % 0x1_0000_0000, w % 0x1_0000_0000, 8);
  }

  /** The 32-bit word of an int: the int itself when non-negative, else the int plus 2^32. */
  lemma Int32Word(v: int)
    requires IsInt32(v)
    ensures 0 <= v % 0x1_0000_0000 < 0x1_0000_0000
    ensures v % 0x1_0000_0000 == if v < 0 then v + 0x1_0000_0000 else v
  {
  }

  lemma Pow16Eight()
    ensures Pow16(8) == 0x1_0000_0000
  {
  }

  /** The white space `int.Parse` skips around the digits: U+0009 to U+000D and the space. */
  predicate IsNumberWhite(ch: char) {
    ch == ' ' || '\t' <= ch <= '\r'
  }

  function DropLeadingWhite(s: string): string {
    if s != [] && IsNumberWhite(s[0]) then DropLeadingWhite(s[1..]) else s
  }

  function DropTrailingWhite(s: string): string {
    if s != [] && IsNumberWhite(s[|s| - 1]) then DropTrailingWhite(s[..|s| - 1]) else s
  }

  function DropTrailingNul(s: string): string {
    if s != [] && s[|s| - 1] == '\0' then DropTrailingNul(s[..|s| - 1]) else s
  }

  /**
   * The text `int.Parse(s, NumberStyles.HexNumber)` reads as digits: leading white space
   * is skipped, and after the digits come optional white space and then only U+0000
   * characters, which the parser accepts and ignores.
   */
  function NumberText(s: string): string {
    DropTrailingWhite(DropTrailingNul(DropLeadingWhite(s)))
  }

  /**
   * `int.Parse(s, NumberStyles.HexNumber)`: a FormatException unless the number text is a
   * non-empty run of hexadecimal digits, an OverflowException when its value needs more
   * than 32 bits, and otherwise the 32-bit word read as a signed int.
   */
  function ParseHexInt32(s: string): (r: Result<int>)
    ensures r.Ok? ==> IsInt32(r.value)
  {
    var d := NumberText(s);
    if d == [] || !AllHexDigits(d) then Err(FormatException)
    else
      var v := HexNumber(d);
      if v >= 0x1_0000_0000 then Err(OverflowException)
      else if v >= 0x8000_0000 then Ok(v - 0x1_0000_0000)
      else Ok(v)
  }

  /** A non-empty run of hexadecimal digits is its own number text. */
  lemma NumberTextOfDigits(s: string)
    requires s != [] && AllHexDigits(s)
    ensures NumberText(s) == s
  {
    assert IsHexDigit(s[0]) && IsHexDigit(s[|s| - 1]);
  }

  /** U+0000 characters at the end never change what `int.Parse` reads. */
  lemma ParseHexIgnoresTrailingNul(s: string)
    ensures ParseHexInt32(s + ['\0']) == ParseHexInt32(s)
  {
    DropLeadingWhiteAppend(s, ['\0']);
    var t := DropLeadingWhite(s);
    assert (t + ['\0'])[..|t|] == t;
  }

  lemma {:induction false} DropLeadingWhiteAppend(s: string, z: string)
    requires z != [] && !IsNumberWhite(z[0])
    ensures DropLeadingWhite(s + z) == DropLeadingWhite(s) + z
  {
    if s != [] {
      assert (s + z)[1..] == s[1..] + z;
      if IsNumberWhite(s[0]) {
        DropLeadingWhiteAppend(s[1..], z);
      }
    }
  }

  /** White space and then U+0000 may follow the digits; the reverse order is refused. */
  lemma ParseHexTrailingExamples()
    ensures ParseHexInt32("FFF \0") == Ok(0xFFF)
    ensures ParseHexInt32("FFF\0 ") == Err(FormatException)
  {
    assert DropLeadingWhite("FFF \0") == "FFF \0";
    assert DropLeadingWhite("FFF\0 ") == "FFF\0 ";
    assert DropTrailingNul("FFF \0") == "FFF ";
    assert DropTrailingWhite("FFF ") == "FFF";
    assert AllHexDigits("FFF") && HexNumber("FFF") == 0xFFF by {
      assert "FFF"[..2] == "FF" && "FF"[..1] == "F" && "F"[..0] == "";
    }
    assert DropTrailingNul("FFF\0 ") == "FFF\0 ";
    assert DropTrailingWhite("FFF\0 ") == "FFF\0";
    assert !IsHexDigit("FFF\0"[3]);
  }

  /** `char.IsWhiteSpace`. */
  predicate IsWhiteSpace(ch: char) {
    var n := ch as int;
    (9 <= n <= 13) || n == 0x20 || n == 0x85 || n == 0xA0 || n == 0x1680
    || (0x2000 <= n <= 0x200A) || n == 0x2028 || n == 0x2029 || n == 0x202F
    || n == 0x205F || n == 0x3000
  }

  function TrimStart(s: string): (r: string)
    ensures |r| <= |s|
    ensures r == [] || !IsWhiteSpace(r[0])
  {
    if s != [] && IsWhiteSpace(s[0]) then TrimStart(s[1..]) else s
  }

  /** What `TrimStart` keeps is a suffix of its input: only leading characters are dropped. */
  lemma {:induction false} TrimStartSuffix(s: string)
    ensures TrimStart(s) == s[|s| - |TrimStart(s)|..]
  {
    if s != [] && IsWhiteSpace(s[0]) {
      TrimStartSuffix(s[1..]);
      assert s[1..][|s| - 1 - |TrimStart(s)|..] == s[|s| - |TrimStart(s)|..];
    }
  }

  function TrimEnd(s: string): (r: string)
    ensures |r| <= |s| && r == s[..|r|]
    ensures r == [] || !IsWhiteSpace(r[|r| - 1])
  {
    if s != [] && IsWhiteSpace(s[|s| - 1]) then TrimEnd(s[..|s| - 1]) else s
  }

  /** `string.Trim()`: white space removed from both ends. */
  function Trim(s: string): string {
    TrimEnd(TrimStart(s))
  }

  lemma TrimHexDigits(s: string)
    requires AllHexDigits(s)
    ensures Trim(s) == s
  {
    if s != [] {
      assert IsHexDigit(s[0]) && IsHexDigit(s[|s| - 1]);
    }
  }

  /** `s.Split(c)`: the pieces between occurrences of c, empty pieces included. */
  function Split(s: string, c: char): (parts: seq<string>)
    ensures |parts| >= 1
  {
    if s == [] then [[]]
    else
      var p := Split(s[..|s| - 1], c);
      if s[|s| - 1] == c then p + [[]]
      else p[..|p| - 1] + [p[|p| - 1] + [s[|s| - 1]]]
  }

  /** `string.Join(sep, parts)`. */
  function Join(parts: seq<string>, sep: string): string {
    if parts == [] then []
    else if |parts| == 1 then parts[0]
    else Join(parts[..|parts| - 1], sep) + sep + parts[|parts| - 1]
  }

  /** Joining n parts of equal length k with a separator gives n * k characters plus n - 1 separators. */
  lemma {:induction false} JoinLength(parts: seq<string>, sep: string, k: nat)
    requires forall i :: 0 <= i < |parts| ==> |parts[i]| == k
    ensures |Join(parts, sep)| == if parts == [] then 0 else |parts| * k + (|parts| - 1) * |sep|
  {
    if |parts| > 1 {
      JoinLength(parts[..|parts| - 1], sep, k);
    }
  }

  /** Splitting loses nothing: joining the pieces with the separator restores the string. */
  lemma {:induction false} SplitJoin(s: string, c: char)
    ensures Join(Split(s, c), [c]) == s
    ensures forall i :: 0 <= i < |Split(s, c)| ==> c !in Split(s, c)[i]
  {
    if s != [] {
      var q, z := s[..|s| - 1], s[|s| - 1];
      assert s == q + [z];
      var p := Split(q, c);
      SplitJoin(q, c);
      SplitSnoc(q, z, c);
      if z == c {
        assert Split(s, c) == p + [[]];
        assert Split(s, c)[..|Split(s, c)| - 1] == p;
      } else {
        var front := p[..|p| - 1];
        assert p == front + [p[|p| - 1]];
        assert Split(s, c) == front + [p[|p| - 1] + [z]];
        if |p| == 1 {
          assert Join(p, [c]) == p[0];
        } else {
          assert Split(s, c)[..|Split(s, c)| - 1] == front;
          assert Join(p, [c]) == Join(front, [c]) + [c] + p[|p| - 1];
        }
      }
    }
  }

  /** One more character: a separator opens an empty piece, any other character extends the last. */
  lemma SplitSnoc(s: string, z: char, c: char)
    ensures var p := Split(s, c);
      Split(s + [z], c) == if z == c then p + [[]] else p[..|p| - 1] + [p[|p| - 1] + [z]]
  {
    assert (s + [z])[..|s + [z]| - 1] == s;
  }

  /** Appending text without the separator extends the last piece. */
  lemma {:induction false} SplitAppendPiece(s: string, b: string, c: char)
    requires c !in b
    ensures var p := Split(s, c);
      Split(s + b, c) == p[..|p| - 1] + [p[|p| - 1] + b]
  {
    var p := Split(s, c);
    if b != [] {
      var b', z := b[..|b| - 1], b[|b| - 1];
      assert z != c && b == b' + [z];
      SplitAppendPiece(s, b', c);
      var q := Split(s + b', c);
      SplitSnoc(s + b', z, c);
      AppendAssoc(s, b', [z]);
      AppendAssoc(p[|p| - 1], b', [z]);
      assert q[..|q| - 1] == p[..|p| - 1];
    } else {
      assert s + b == s && p[|p| - 1] + b == p[|p| - 1];
      assert p[..|p| - 1] + [p[|p| - 1]] == p;
    }
  }

  /** A separator followed by text without it starts one new piece holding that text. */
  lemma SplitAfterSeparator(s: string, c: char, rest: string)
    requires c !in rest
    ensures Split(s + [c] + rest, c) == Split(s, c) + [rest]
  {
    var t := s + [c];
    assert t[..|t| - 1] == s;
    var st := Split(t, c);
    assert st == Split(s, c) + [[]];
    SplitAppendPiece(t, rest, c);
    assert st[..|st| - 1] == Split(s, c);
    assert st[|st| - 1] + rest == rest;
  }

  /** The pieces of a join whose separator starts with c are the joined parts, each later one
      preceded by the rest of the separator. */
  lemma {:induction false} SplitOfJoin(parts: seq<string>, c: char, tail: string)
    requires |parts| >= 1 && c !in tail
    requires forall i :: 0 <= i < |parts| ==> c !in parts[i]
    ensures var r := Split(Join(parts, [c] + tail), c);
      |r| == |parts| && r[0] == parts[0] && forall i :: 1 <= i < |parts| ==> r[i] == tail + parts[i]
  {
    var sep := [c] + tail;
    if |parts| == 1 {
      SplitAppendPiece([], parts[0], c);
      assert [] + parts[0] == parts[0];
    } else {
      var front, last := parts[..|parts| - 1], parts[|parts| - 1];
      SplitOfJoin(front, c, tail);
      var j := Join(front, sep);
      assert Join(parts, sep) == j + sep + last;
      SeparatorSplit(j, c, tail, last);
      assert c !in tail + last;
      SplitAfterSeparator(j, c, tail + last);
      var r, p := Split(Join(parts, sep), c), Split(j, c);
      assert r == p + [tail + last];
      assert r[0] == p[0] && front[0] == parts[0];
      forall i | 1 <= i < |parts|
        ensures r[i] == tail + parts[i]
      {
        if i < |front| {
          assert r[i] == p[i] && front[i] == parts[i];
        }
      }
    }
  }

  lemma SeparatorSplit(j: string, c: char, tail: string, last: string)
    ensures j + ([c] + tail) + last == j + [c] + (tail + last)
  {
  }

  /** `s.Replace(a, b)` for one-character strings a and b. */
  function ReplaceChar(s: string, a: char, b: char): (r: string)
    ensures |r| == |s|
    ensures forall i :: 0 <= i < |s| ==> r[i] == (if s[i] == a then b else s[i])
  {
    if s == [] then [] else ReplaceChar(s[..|s| - 1], a, b) + [if s[|s| - 1] == a then b else s[|s| - 1]]
  }
}
