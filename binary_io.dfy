/**
 * The byte output of a `BinaryWriter` and the big-endian 16-bit words the
 * library writes through it (`BitConverter.GetBytes` followed by `Array.Reverse`).
 */
module BinaryIO {
  import opened Wrappers
  import opened Sequences

  /** A BinaryWriter seen through the bytes it has written so far. */
  class ByteWriter {
    var bytes: seq<Byte>

    constructor ()
      ensures bytes == []
    {
      bytes := [];
    }

    /** `BinaryWriter.Write(byte)`. */
    method Write(b: Byte)
      modifies this
      ensures bytes == old(bytes) + [b]
    {
      bytes := bytes + [b];
    }
  }

  /** `(ushort)v`: the low 16 bits of an int. */
  function Ushort(v: int): (u: nat)
    ensures u < 0x1_0000 && (0 <= v < 0x1_0000 ==> u == v)
  {
    v % 0x1_0000
  }

  /** A 16-bit word as two bytes, high byte first. */
  function U16BE(v: nat): (r: seq<Byte>)
    requires v < 0x1_0000
    ensures |r| == 2 && ReadU16BE(r, 0) == v
  {
    [v / 0x100, v % 0x100]
  }

  /** The big-endian word at position i. */
  function ReadU16BE(bs: seq<Byte>, i: nat): (v: nat)
    requires i + 2 <= |bs|
    ensures v < 0x1_0000
  {
    bs[i] as int * 0x100 + bs[i + 1] as int
  }

  /** Reading a word back from its two bytes yields those bytes: the encoding is onto. */
  lemma U16BEOfRead(bs: seq<Byte>)
    requires |bs| == 2
    ensures U16BE(ReadU16BE(bs, 0)) == bs
  {
    var v := ReadU16BE(bs, 0);
    assert v / 0x100 == bs[0];
    assert v % 0x100 == bs[1];
  }

  /** Words written one after another, each high byte first. */
  function U16sBE(vs: seq<nat>): (r: seq<Byte>)
    requires forall i :: 0 <= i < |vs| ==> vs[i] < 0x1_0000
    ensures |r| == 2 * |vs|
  {
    if vs == [] then [] else U16sBE(vs[..|vs| - 1]) + U16BE(vs[|vs| - 1])
  }

  /** One more word appends its high byte, then its low byte. */
  lemma U16sBESnoc(vs: seq<nat>, i: nat)
    requires forall j :: 0 <= j < |vs| ==> vs[j] < 0x1_0000
    requires i < |vs|
    ensures U16sBE(vs[..i + 1]) == U16sBE(vs[..i]) + [vs[i] / 0x100, vs[i] % 0x100]
  {
    assert vs[..i + 1][..i] == vs[..i];
  }

  /** Word i sits at bytes 2i and 2i + 1, so the stream reads back to the words. */
  lemma {:induction false} U16sBERead(vs: seq<nat>, i: nat)
    requires forall j :: 0 <= j < |vs| ==> vs[j] < 0x1_0000
    requires i < |vs|
    ensures 2 * i + 2 <= |U16sBE(vs)| && ReadU16BE(U16sBE(vs), 2 * i) == vs[i]
  {
    var front := vs[..|vs| - 1];
    if i < |vs| - 1 {
      U16sBERead(front, i);
      var p := U16sBE(front);
      assert U16sBE(vs) == p + U16BE(vs[|vs| - 1]);
      assert U16sBE(vs)[2 * i] == p[2 * i] && U16sBE(vs)[2 * i + 1] == p[2 * i + 1];
    }
  }
}
