/** The two frame strategies of internal/display/buffer.go and the `Buffer` that owns
    the 80-byte frame. The LCD shows frame bytes 0-19 on row 1, 20-39 on row 3, 40-59 on
    row 2 and 60-79 on row 4, so logical line k goes to the window at RowOffset[k]. */
module Frame {
  import opened Utf8
  import opened Wrappers
  import opened Window
  import opened Lines
  import opened Renderers

  /** Bytes in a frame: four rows of 20 (CharLcdDimension). */
  const FrameSize: nat := 4 * Width

  /** Where logical lines 1, 2, 3 and 4 sit in the frame. */
  const RowOffset: seq<nat> := [0, 40, 20, 60]

  /** The error the strategies that fill the frame from one line give for lines 2-4. */
  datatype DisplayError = ErrSettingThisLine

  /** Lays the first 80 bytes of a text over the frame so that the display shows them
      in reading order: text bytes 20k to 20k + 19 land at RowOffset[k]. */
  function Interleave(b: seq<Byte>): (r: seq<Byte>)
    requires |b| >= FrameSize
    ensures |r| == FrameSize
    ensures forall k :: 0 <= k < 4 ==> r[RowOffset[k]..RowOffset[k] + Width] == b[Width * k..Width * k + Width]
  {
    b[0..20] + b[40..60] + b[20..40] + b[60..80]
  }

  /** Byte j of row k of the layout is byte 20k + j of the text. */
  lemma InterleaveAt(b: seq<Byte>, k: nat, j: nat)
    requires |b| >= FrameSize && k < 4 && j < Width
    ensures Interleave(b)[RowOffset[k] + j] == b[Width * k + j]
  {
    assert Interleave(b)[RowOffset[k]..RowOffset[k] + Width][j] == b[Width * k..Width * k + Width][j];
  }

  /** The layout swaps the middle rows, so applying it twice gives the text back. */
  lemma InterleaveTwice(b: seq<Byte>)
    requires |b| >= FrameSize
    ensures Interleave(Interleave(b)) == b[..FrameSize]
  {
    var r := Interleave(Interleave(b));
    assert r == b[0..20] + b[20..40] + b[40..60] + b[60..80];
  }

  /** The frame after the four per-line renderers have written their windows, in the
      order the source calls them. */
  function Rows(frame: seq<Byte>, w1: seq<Byte>, w2: seq<Byte>, w3: seq<Byte>, w4: seq<Byte>): (r: seq<Byte>)
    requires |frame| == FrameSize
    ensures |r| == FrameSize
  {
    Blit(Blit(Blit(Blit(frame, 0, w1), 40, w2), 20, w3), 60, w4)
  }

  /** The four copies of the wrapping strategy, in the source's order, lay out the text
      as Interleave does, whatever the frame held. */
  lemma BlitsInterleave(f: seq<Byte>, line: seq<Byte>)
    requires |f| == FrameSize && |line| >= FrameSize
    ensures var b := line[..FrameSize];
      Blit(Blit(Blit(Blit(f, 0, b[0..20]), 20, b[40..60]), 40, b[20..40]), 60, b[60..80]) == Interleave(line)
  {
    var b := line[..FrameSize];
    var l := Blit(Blit(Blit(Blit(f, 0, b[0..20]), 20, b[40..60]), 40, b[20..40]), 60, b[60..80]);
    var r := Interleave(line);
    forall i | 0 <= i < FrameSize ensures l[i] == r[i] {
      var k := if i < 20 then 0 else if i < 40 then 2 else if i < 60 then 1 else 3;
      var j := i - RowOffset[k];
      InterleaveAt(line, k, j);
    }
  }

  /** Each renderer writes only its own row: row k shows what renderer k wrote, and where
      it wrote fewer than 20 bytes (or nothing) the frame keeps its earlier bytes. */
  lemma RowsSeparate(frame: seq<Byte>, ws: seq<seq<Byte>>, k: nat, j: nat)
    requires |frame| == FrameSize && |ws| == 4 && k < 4 && j < Width
    ensures Rows(frame, ws[0], ws[1], ws[2], ws[3])[RowOffset[k] + j]
         == if j < |ws[k]| then ws[k][j] else frame[RowOffset[k] + j]
  {
  }

  /** When all four renderers write a full window, the frame is the four lines laid out
      exactly as the wrapping strategy lays out one 80-byte text. */
  lemma RowsFull(frame: seq<Byte>, w1: seq<Byte>, w2: seq<Byte>, w3: seq<Byte>, w4: seq<Byte>)
    requires |frame| == FrameSize && |w1| == |w2| == |w3| == |w4| == Width
    ensures Rows(frame, w1, w2, w3, w4) == Interleave(w1 + w2 + w3 + w4)
  {
    var ws := [w1, w2, w3, w4];
    var b := w1 + w2 + w3 + w4;
    var l, r := Rows(frame, w1, w2, w3, w4), Interleave(b);
    forall i | 0 <= i < FrameSize ensures l[i] == r[i] {
      var k, j := if i < 20 then 0 else if i < 40 then 2 else if i < 60 then 1 else 3, i % Width;
      assert i == RowOffset[k] + j;
      RowsSeparate(frame, ws, k, j);
      InterleaveAt(b, k, j);
      ConcatIndex(w1, w2, w3, w4, k, j);
    }
  }

  /** Byte j of the k-th of four 20-byte pieces, in their concatenation. */
  lemma ConcatIndex(w1: seq<Byte>, w2: seq<Byte>, w3: seq<Byte>, w4: seq<Byte>, k: nat, j: nat)
    requires |w1| == |w2| == |w3| == |w4| == Width && k < 4 && j < Width
    ensures (w1 + w2 + w3 + w4)[Width * k + j] == [w1, w2, w3, w4][k][j]
  {
    if k == 0 {
      assert (w1 + w2 + w3 + w4)[j] == w1[j];
    } else if k == 1 {
      assert (w1 + w2 + w3 + w4)[Width + j] == w2[j];
    } else if k == 2 {
      assert (w1 + w2 + w3 + w4)[2 * Width + j] == w3[j];
    } else {
      assert (w1 + w2 + w3 + w4)[3 * Width + j] == w4[j];
    }
  }

  /** Two renderers with distinct state render, one after the other, into their
      windows of the same frame. */
  method RenderPair(a: LineRenderer, offA: nat, b: LineRenderer, offB: nat, frame: array<Byte>)
    requires offA + Width <= frame.Length && offB + Width <= frame.Length && a.Obj() != b.Obj()
    requires LineValid(a.State()) && Ready(a.State()) && LineValid(b.State()) && Ready(b.State())
    modifies a.Obj(), b.Obj(), frame
    ensures a.State() == LineRender(old(a.State())).state
    ensures b.State() == LineRender(old(b.State())).state
    ensures frame[..] == Blit(Blit(old(frame[..]), offA, LineRender(old(a.State())).written),
                              offB, LineRender(old(b.State())).written)
  {
    a.NextRender(frame, offA);
    b.NextRender(frame, offB);
  }

  /** OfCustomStylePerLine: one renderer per logical line. */
  class PerLine {
    const line1: LineRenderer
    const line2: LineRenderer
    const line3: LineRenderer
    const line4: LineRenderer

    /** The four renderers are distinct objects. */
    predicate Distinct() {
      && line1.Obj() != line2.Obj() && line1.Obj() != line3.Obj() && line1.Obj() != line4.Obj()
      && line2.Obj() != line3.Obj() && line2.Obj() != line4.Obj() && line3.Obj() != line4.Obj()
    }

    function Objs(): set<object> {
      {line1.Obj(), line2.Obj(), line3.Obj(), line4.Obj()}
    }

    predicate Valid()
      reads Objs()
    {
      && Distinct()
      && LineValid(line1.State()) && LineValid(line2.State())
      && LineValid(line3.State()) && LineValid(line4.State())
    }

    /** Every renderer can render (an endless marquee has been given a line). */
    predicate AllReady()
      reads Objs()
    {
      Ready(line1.State()) && Ready(line2.State()) && Ready(line3.State()) && Ready(line4.State())
    }

    constructor (l1: LineRenderer, l2: LineRenderer, l3: LineRenderer, l4: LineRenderer)
      ensures line1 == l1 && line2 == l2 && line3 == l3 && line4 == l4
    {
      line1, line2, line3, line4 := l1, l2, l3, l4;
    }

    /** Renders the four lines into their windows of `frame` and returns the frame. */
    method NextRender(frame: array<Byte>) returns (r: seq<Byte>)
      requires frame.Length == FrameSize && Valid() && AllReady()
      modifies Objs(), frame
      ensures Valid() && AllReady()
      ensures line1.State() == LineRender(old(line1.State())).state
      ensures line2.State() == LineRender(old(line2.State())).state
      ensures line3.State() == LineRender(old(line3.State())).state
      ensures line4.State() == LineRender(old(line4.State())).state
      ensures r == frame[..] == Rows(old(frame[..]),
        LineRender(old(line1.State())).written, LineRender(old(line2.State())).written,
        LineRender(old(line3.State())).written, LineRender(old(line4.State())).written)
    {
      ObjNotFrame(line1, frame);
      ObjNotFrame(line2, frame);
      ObjNotFrame(line3, frame);
      ObjNotFrame(line4, frame);
      assert Distinct();
      ghost var o3, o4 := line3.State(), line4.State();
      RenderPair(line1, 0, line2, 40, frame);
      assert unchanged(line3.Obj(), line4.Obj());
      assert line3.State() == o3 && line4.State() == o4;
      ghost var n1, n2 := line1.State(), line2.State();
      label Half:
      RenderPair(line3, 20, line4, 60, frame);
      assert unchanged@Half(line1.Obj(), line2.Obj());
      assert line1.State() == n1 && line2.State() == n2;
      r := frame[..];
    }

    method SetLine1(text: seq<Rune>)
      requires Valid()
      modifies Objs()
      ensures Valid() && AllReady() == (Ready(line2.State()) && Ready(line3.State()) && Ready(line4.State()))
      ensures line1.State() == LineSet(old(line1.State()), text)
      ensures line2.State() == old(line2.State()) && line3.State() == old(line3.State()) && line4.State() == old(line4.State())
    {
      assert Distinct();
      line1.SetCurrentLine(text);
    }

    /** Sets line 2; always succeeds (returns nil). */
    method SetLine2(text: seq<Rune>) returns (err: Option<DisplayError>)
      requires Valid()
      modifies Objs()
      ensures Valid() && err == None
      ensures line2.State() == LineSet(old(line2.State()), text)
      ensures line1.State() == old(line1.State()) && line3.State() == old(line3.State()) && line4.State() == old(line4.State())
    {
      assert Distinct();
      line2.SetCurrentLine(text);
      err := None;
    }

    method SetLine3(text: seq<Rune>) returns (err: Option<DisplayError>)
      requires Valid()
      modifies Objs()
      ensures Valid() && err == None
      ensures line3.State() == LineSet(old(line3.State()), text)
      ensures line1.State() == old(line1.State()) && line2.State() == old(line2.State()) && line4.State() == old(line4.State())
    {
      assert Distinct();
      line3.SetCurrentLine(text);
      err := None;
    }

    method SetLine4(text: seq<Rune>) returns (err: Option<DisplayError>)
      requires Valid()
      modifies Objs()
      ensures Valid() && err == None
      ensures line4.State() == LineSet(old(line4.State()), text)
      ensures line1.State() == old(line1.State()) && line2.State() == old(line2.State()) && line3.State() == old(line3.State())
    {
      assert Distinct();
      line4.SetCurrentLine(text);
      err := None;
    }
  }

  /** OfWrapSpanLines: one text spread over the four rows. */
  class WrapSpan {
    var line: seq<Byte>
    var lchanged: bool

    predicate Valid()
      reads this
    {
      lchanged ==> |line| >= FrameSize
    }

    constructor ()
      ensures Valid() && line == [] && !lchanged
    {
      line, lchanged := [], false;
    }

    /** Once a line has been set, every call lays its first 80 bytes over the whole
        frame; before that the frame is left as it is. */
    method NextRender(frame: array<Byte>) returns (r: seq<Byte>)
      requires frame.Length == FrameSize && Valid()
      modifies frame
      ensures r == frame[..]
      ensures lchanged ==> frame[..] == Interleave(line)
      ensures !lchanged ==> frame[..] == old(frame[..])
    {
      if lchanged {
        var bytes := line[..FrameSize];
        CopyInto(frame, 0, bytes[0..20]);
        CopyInto(frame, 20, bytes[40..60]);
        CopyInto(frame, 40, bytes[20..40]);
        CopyInto(frame, 60, bytes[60..80]);
        BlitsInterleave(old(frame[..]), line);
      }
      r := frame[..];
    }

    method SetLine1(text: seq<Rune>)
      modifies this
      ensures Valid() && lchanged && line == Formatted(text, FrameSize)
    {
      line := Formatted(text, FrameSize);
      lchanged := true;
    }

    /** Lines 2-4 cannot be set on their own (BaseOverflowStyle): an error, and nothing
        changes. */
    method SetLine2(text: seq<Rune>) returns (err: Option<DisplayError>)
      ensures err == Some(ErrSettingThisLine)
    {
      err := Some(ErrSettingThisLine);
    }

    method SetLine3(text: seq<Rune>) returns (err: Option<DisplayError>)
      ensures err == Some(ErrSettingThisLine)
    {
      err := Some(ErrSettingThisLine);
    }

    method SetLine4(text: seq<Rune>) returns (err: Option<DisplayError>)
      ensures err == Some(ErrSettingThisLine)
    {
      err := Some(ErrSettingThisLine);
    }
  }

  /** For text below 0x80, the wrapped frame shows the text padded to 80 characters,
      20 per row in reading order. */
  lemma WrapSpanAscii(text: seq<Rune>, k: nat, j: nat)
    requires forall i :: 0 <= i < |text| ==> text[i] < 0x80
    requires k < 4 && j < Width
    ensures Interleave(Formatted(text, FrameSize))[RowOffset[k] + j] == PadRight(text, FrameSize)[Width * k + j]
  {
    FormattedAscii(text, FrameSize);
    InterleaveAt(Formatted(text, FrameSize), k, j);
  }

  /** The frame strategy a Buffer delegates to (the OverflowStyle interface). */
  datatype Strategy = PerLineS(perLine: PerLine) | WrapS(wrap: WrapSpan)

  /** Buffer: owns the frame, which it never clears, and delegates to its strategy. */
  class Buffer {
    const internal: array<Byte>
    const overflow: Strategy

    function Objs(): set<object> {
      match overflow
      case PerLineS(p) => {p} + p.Objs()
      case WrapS(w) => {w}
    }

    predicate Valid()
      reads Objs()
    {
      && internal.Length == FrameSize
      && match overflow
         case PerLineS(p) => p.Valid()
         case WrapS(w) => w.Valid()
    }

    /** A new buffer starts from a zeroed frame. */
    constructor (style: Strategy)
      ensures overflow == style && fresh(internal) && internal[..] == seq(FrameSize, _ => 0)
    {
      internal := new Byte[FrameSize](_ => 0);
      overflow := style;
    }

    /** Renders into the buffer's own frame and returns it. */
    method NextRender() returns (r: seq<Byte>)
      requires Valid() && internal !in Objs()
      requires overflow.PerLineS? ==> overflow.perLine.AllReady()
      modifies Objs(), internal
      ensures Valid() && r == internal[..]
      ensures overflow.WrapS? ==> var w := overflow.wrap;
        unchanged(w) && (w.lchanged ==> r == Interleave(w.line)) && (!w.lchanged ==> r == old(internal[..]))
      ensures overflow.PerLineS? ==> var p := overflow.perLine;
        && p.AllReady()
        && p.line1.State() == LineRender(old(p.line1.State())).state
        && p.line2.State() == LineRender(old(p.line2.State())).state
        && p.line3.State() == LineRender(old(p.line3.State())).state
        && p.line4.State() == LineRender(old(p.line4.State())).state
        && r == Rows(old(internal[..]),
          LineRender(old(p.line1.State())).written, LineRender(old(p.line2.State())).written,
          LineRender(old(p.line3.State())).written, LineRender(old(p.line4.State())).written)
    {
      match overflow
      case PerLineS(p) => r := p.NextRender(internal);
      case WrapS(w) => r := w.NextRender(internal);
    }

    method SetLine1(text: seq<Rune>)
      requires Valid()
      modifies Objs()
      ensures Valid()
      ensures overflow.PerLineS? ==> var p := overflow.perLine;
        && p.line1.State() == LineSet(old(p.line1.State()), text)
        && p.line2.State() == old(p.line2.State()) && p.line3.State() == old(p.line3.State())
        && p.line4.State() == old(p.line4.State())
        && p.AllReady() == (Ready(p.line2.State()) && Ready(p.line3.State()) && Ready(p.line4.State()))
      ensures overflow.WrapS? ==> overflow.wrap.line == Formatted(text, FrameSize) && overflow.wrap.lchanged
    {
      match overflow
      case PerLineS(p) => p.SetLine1(text);
      case WrapS(w) => w.SetLine1(text);
    }

    method SetLine2(text: seq<Rune>) returns (err: Option<DisplayError>)
      requires Valid()
      modifies Objs()
      ensures Valid()
      ensures overflow.PerLineS? ==> var p := overflow.perLine;
        && err == None && p.line2.State() == LineSet(old(p.line2.State()), text)
        && p.line1.State() == old(p.line1.State()) && p.line3.State() == old(p.line3.State())
        && p.line4.State() == old(p.line4.State())
      ensures overflow.WrapS? ==> err == Some(ErrSettingThisLine)
      ensures overflow.WrapS? ==> unchanged(overflow.wrap)
    {
      match overflow
      case PerLineS(p) => err := p.SetLine2(text);
      case WrapS(w) => err := w.SetLine2(text);
    }

    method SetLine3(text: seq<Rune>) returns (err: Option<DisplayError>)
      requires Valid()
      modifies Objs()
      ensures Valid()
      ensures overflow.PerLineS? ==> var p := overflow.perLine;
        && err == None && p.line3.State() == LineSet(old(p.line3.State()), text)
        && p.line1.State() == old(p.line1.State()) && p.line2.State() == old(p.line2.State())
        && p.line4.State() == old(p.line4.State())
      ensures overflow.WrapS? ==> err == Some(ErrSettingThisLine)
      ensures overflow.WrapS? ==> unchanged(overflow.wrap)
    {
      match overflow
      case PerLineS(p) => err := p.SetLine3(text);
      case WrapS(w) => err := w.SetLine3(text);
    }

    method SetLine4(text: seq<Rune>) returns (err: Option<DisplayError>)
      requires Valid()
      modifies Objs()
      ensures Valid()
      ensures overflow.PerLineS? ==> var p := overflow.perLine;
        && err == None && p.line4.State() == LineSet(old(p.line4.State()), text)
        && p.line1.State() == old(p.line1.State()) && p.line2.State() == old(p.line2.State())
        && p.line3.State() == old(p.line3.State())
      ensures overflow.WrapS? ==> err == Some(ErrSettingThisLine)
      ensures overflow.WrapS? ==> unchanged(overflow.wrap)
    {
      match overflow
      case PerLineS(p) => err := p.SetLine4(text);
      case WrapS(w) => err := w.SetLine4(text);
    }
  }
}
