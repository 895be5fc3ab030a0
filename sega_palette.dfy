/**
 * `SplitPalette` of RetroLib/Platforms/SegaGenesis.cs: a colour set split into the
 * first sixteen colours (one VDP palette line) and the rest.
 */
module SegaPalette {
  import opened Arith
  import opened Enumeration
  import opened Drawing

  /** Colours per palette line of the Mega Drive VDP. */
  const LineSize := 16

  /**
   * `SplitPalette`: the first sixteen colours in enumeration order go to the first set,
   * every later colour to the second; the two sets are disjoint and together hold the palette.
   */
  method SplitPalette(palette: seq<Color>) returns (first16: seq<Color>, remaining: seq<Color>)
    requires Distinct(palette)
    ensures first16 == palette[..Min(LineSize, |palette|)]
    ensures remaining == palette[Min(LineSize, |palette|)..]
    ensures first16 + remaining == palette
    ensures |first16| <= LineSize && (|palette| >= LineSize ==> |first16| == LineSize)
    ensures Distinct(first16) && Distinct(remaining)
    ensures forall c :: c in first16 ==> c !in remaining
  {
    first16, remaining := [], [];
    var count := 0;
    for i := 0 to |palette|
      invariant count == |first16| == Min(LineSize, i)
      invariant first16 == palette[..Min(LineSize, i)]
      invariant remaining == palette[Min(LineSize, i)..i]
    {
      var color := palette[i];
      assert color !in palette[..i];
      if count < LineSize {
        assert palette[..i + 1] == palette[..i] + [color];
        first16 := Add(first16, color);
        count := count + 1;
      } else {
        assert palette[LineSize..i + 1] == palette[LineSize..i] + [color];
        remaining := Add(remaining, color);
      }
    }
    assert palette[..|palette|] == palette;
    SplitDisjoint(palette, Min(LineSize, |palette|));
  }

  /** The two sides of any cut of a duplicate-free sequence are duplicate-free and share no element. */
  lemma SplitDisjoint(s: seq<Color>, n: nat)
    requires Distinct(s) && n <= |s|
    ensures s[..n] + s[n..] == s
    ensures Distinct(s[..n]) && Distinct(s[n..])
    ensures forall c :: c in s[..n] ==> c !in s[n..]
  {
    assert s[..n] + s[n..] == s;
    forall c | c in s[..n]
      ensures c !in s[n..]
    {
      var i :| 0 <= i < n && s[i] == c;
      forall j | n <= j < |s|
        ensures s[j] != c
      {
        assert s[i] != s[j];
      }
    }
  }
}
