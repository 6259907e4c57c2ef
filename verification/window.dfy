/** The 20-byte windows of the 80-byte LCD frame that renderers write into, and Go's
    `copy` into such a window. */
module Window {
  import opened Utf8

  /** Characters per LCD row. */
  const Width: nat := 20

  function Min(a: int, b: int): int {
    if a < b then a else b
  }

  /** `copy(frame[off:off+20], src)`: the first min(|src|, 20) bytes of `src` land at
      `off`; every other byte of the frame keeps its value. */
  function Blit(frame: seq<Byte>, off: nat, src: seq<Byte>): (r: seq<Byte>)
    requires off + Width <= |frame|
    ensures |r| == |frame|
    ensures forall i :: 0 <= i < |r| ==>
      r[i] == if off <= i < off + Min(|src|, Width) then src[i - off] else frame[i]
  {
    var n := Min(|src|, Width);
    frame[..off] + src[..n] + frame[off + n..]
  }

  /** Copying nothing leaves the frame as it was. */
  lemma BlitNothing(frame: seq<Byte>, off: nat)
    requires off + Width <= |frame|
    ensures Blit(frame, off, []) == frame
  {
  }

  /** A source of 20 bytes or more fills the window with its first 20 bytes. */
  lemma BlitFull(frame: seq<Byte>, off: nat, src: seq<Byte>)
    requires off + Width <= |frame| && |src| >= Width
    ensures Blit(frame, off, src)[off..off + Width] == src[..Width]
    ensures Blit(frame, off, src)[..off] == frame[..off]
    ensures Blit(frame, off, src)[off + Width..] == frame[off + Width..]
  {
  }

  /** Copies into two windows that do not overlap commute, so the order in which the
      rows are rendered does not matter. */
  lemma BlitCommute(frame: seq<Byte>, a: nat, x: seq<Byte>, b: nat, y: seq<Byte>)
    requires a + Width <= |frame| && b + Width <= |frame|
    requires a + Width <= b || b + Width <= a
    ensures Blit(Blit(frame, a, x), b, y) == Blit(Blit(frame, b, y), a, x)
  {
    var l, r := Blit(Blit(frame, a, x), b, y), Blit(Blit(frame, b, y), a, x);
    assert forall i :: 0 <= i < |l| ==> l[i] == r[i];
  }

  /** Go's `copy` of `src` into the window at `off` of the frame, byte by byte. */
  method CopyInto(frame: array<Byte>, off: nat, src: seq<Byte>)
    requires off + Width <= frame.Length
    modifies frame
    ensures frame[..] == Blit(old(frame[..]), off, src)
  {
    var n := Min(|src|, Width);
    for i := 0 to n
      invariant forall j :: 0 <= j < frame.Length ==>
        frame[j] == if off <= j < off + i then src[j - off] else old(frame[j])
    {
      frame[off + i] := src[i];
    }
    assert forall j :: 0 <= j < frame.Length ==> frame[..][j] == Blit(old(frame[..]), off, src)[j];
  }
}
