/** The objects of the older display engine in cmd/szb/main.go (lines 27-296): three
    per-line renderers, the per-line and wrapping strategies and the DisplayBuffer, each
    method proved to follow the step functions of module Legacy. */
module LegacyDisplay {
  import opened Utf8
  import opened Wrappers
  import opened Window
  import Lines
  import opened Legacy
  import Frame

  /** OfTrimLine of the old engine. */
  class OldTrimLine {
    var line: seq<Byte>
    var changed: bool

    function State(): Lines.TrimState
      reads this
    {
      Lines.TrimState(line, changed)
    }

    constructor ()
      ensures State() == Lines.TrimInit
    {
      line, changed := [], false;
    }

    method NextRender(frame: array<Byte>, off: nat)
      requires off + Width <= frame.Length && Lines.TrimValid(State())
      modifies this, frame
      ensures State() == Lines.TrimRender(old(State())).state
      ensures frame[..] == Blit(old(frame[..]), off, Lines.TrimRender(old(State())).written)
    {
      if changed {
        CopyInto(frame, off, line[0..Width]);
        changed := false;
      } else {
        BlitNothing(frame[..], off);
      }
    }

    method SetCurrentLine(text: seq<Rune>)
      modifies this
      ensures State() == LegacyTrimSet(old(State()), text)
    {
      line := Encode(PadRight(text, Width));
      changed := true;
    }
  }

  /** OfEndlessMarquee of the old engine: no cadence. */
  class OldEndlessMarquee {
    var line: seq<Byte>
    var nextLine: seq<Byte>
    var pos: int

    function State(): LegacyEndless
      reads this
    {
      LegacyEndless(line, nextLine, pos)
    }

    constructor ()
      ensures State() == LegacyEndless([], [], 0)
    {
      line, nextLine, pos := [], [], 0;
    }

    method NextRender(frame: array<Byte>, off: nat)
      requires off + Width <= frame.Length && LegacyEndlessValid(State()) && line != []
      modifies this, frame
      ensures State() == LegacyEndlessRender(old(State())).state
      ensures frame[..] == Blit(old(frame[..]), off, LegacyEndlessRender(old(State())).written)
    {
      var trailer: seq<Byte> := [];
      var endPos := pos + Width;
      if endPos >= |line| {
        endPos := |line|;
        trailer := nextLine[..Width - (endPos - pos)];
      }
      CopyInto(frame, off, line[pos..endPos] + trailer);
      pos := pos + 1;
      if pos == |line| {
        line := nextLine;
        pos := 0;
      }
    }

    method SetCurrentLine(text: seq<Rune>)
      requires LegacyEndlessValid(State())
      modifies this
      ensures State() == LegacyEndlessSet(old(State()), text)
    {
      var t := text;
      if |Encode(text)| >= Width {
        t := text + Lines.Separator;
      }
      nextLine := Encode(PadRight(t, Width));
      if |line| == 0 {
        line := nextLine;
        pos := 0;
      }
    }
  }

  /** OfCycleMarquee of the old engine, with the corrected snap (see
      Legacy.LegacyCycleAsWritten for the source's own). */
  class OldCycleMarquee {
    var slideLeft: bool
    var line: seq<Byte>
    var nextLine: seq<Byte>
    var pos: int
    var changed: bool

    function State(): LegacyCycle
      reads this
    {
      LegacyCycle(slideLeft, line, nextLine, pos, changed)
    }

    constructor ()
      ensures State() == LegacyCycleInit
    {
      slideLeft, line, nextLine, pos, changed := false, [], [], 0, false;
    }

    method NextRender(frame: array<Byte>, off: nat)
      requires off + Width <= frame.Length && LegacyCycleValid(State())
      modifies this, frame
      ensures State() == LegacyCycleRender(old(State())).state
      ensures frame[..] == Blit(old(frame[..]), off, LegacyCycleRender(old(State())).written)
    {
      if changed && |nextLine| == Width {
        CopyInto(frame, off, nextLine[..Width]);
        line := nextLine;
        changed := false;
        pos, slideLeft := 0, true;
        return;
      }
      var endPos := pos + Width;
      if endPos >= |line| {
        endPos := |line|;
      }
      CopyInto(frame, off, line[pos..endPos]);
      if slideLeft {
        pos := pos + 1;
        slideLeft := endPos < |line|;
      } else {
        pos := pos - 1;
        slideLeft := pos == 0;
        if slideLeft {
          line := nextLine;
        }
      }
    }

    method SetCurrentLine(text: seq<Rune>)
      modifies this
      ensures State() == LegacyCycleSet(old(State()), text)
    {
      nextLine := Encode(PadRight(text, Width));
      changed := true;
      if |line| == 0 {
        line := nextLine;
        pos := 0;
        slideLeft := true;
        changed := true;
      }
    }
  }

  /** A renderer of one of the three old kinds (the old NoWrapOverflowStyle). */
  datatype OldRenderer =
    | OldTrimR(trim: OldTrimLine)
    | OldEndlessR(endless: OldEndlessMarquee)
    | OldCycleR(cycle: OldCycleMarquee)
  {
    function Obj(): object {
      match this
      case OldTrimR(t) => t
      case OldEndlessR(e) => e
      case OldCycleR(c) => c
    }

    function State(): LegacyLine
      reads Obj()
    {
      match this
      case OldTrimR(t) => LTrimS(t.State())
      case OldEndlessR(e) => LEndlessS(e.State())
      case OldCycleR(c) => LCycleS(c.State())
    }

    method NextRender(frame: array<Byte>, off: nat)
      requires off + Width <= frame.Length && LegacyLineValid(State()) && LegacyReady(State())
      modifies Obj(), frame
      ensures State() == LegacyLineRender(old(State())).state
      ensures frame[..] == Blit(old(frame[..]), off, LegacyLineRender(old(State())).written)
    {
      match this
      case OldTrimR(t) => t.NextRender(frame, off);
      case OldEndlessR(e) => e.NextRender(frame, off);
      case OldCycleR(c) => c.NextRender(frame, off);
    }

    method SetCurrentLine(text: seq<Rune>)
      requires LegacyLineValid(State())
      modifies Obj()
      ensures State() == LegacyLineSet(old(State()), text)
    {
      match this
      case OldTrimR(t) => t.SetCurrentLine(text);
      case OldEndlessR(e) => e.SetCurrentLine(text);
      case OldCycleR(c) => c.SetCurrentLine(text);
    }
  }

  /** A renderer is never the frame it renders into. */
  lemma ObjNotFrame(l: OldRenderer, frame: array<Byte>)
    ensures l.Obj() != frame
  {
  }

  /** The renderer the old parser selects for a field. */
  method MakeOldRenderer(kind: LegacyKind) returns (r: OldRenderer)
    ensures fresh(r.Obj()) && r.State() == LegacyInit(kind)
  {
    match kind
    case LTrim =>
      var t := new OldTrimLine();
      r := OldTrimR(t);
    case LEndless =>
      var e := new OldEndlessMarquee();
      r := OldEndlessR(e);
    case LCycle =>
      var c := new OldCycleMarquee();
      r := OldCycleR(c);
  }

  method RenderPair(a: OldRenderer, offA: nat, b: OldRenderer, offB: nat, frame: array<Byte>)
    requires offA + Width <= frame.Length && offB + Width <= frame.Length && a.Obj() != b.Obj()
    requires LegacyLineValid(a.State()) && LegacyReady(a.State())
    requires LegacyLineValid(b.State()) && LegacyReady(b.State())
    modifies a.Obj(), b.Obj(), frame
    ensures a.State() == LegacyLineRender(old(a.State())).state
    ensures b.State() == LegacyLineRender(old(b.State())).state
    ensures frame[..] == Blit(Blit(old(frame[..]), offA, LegacyLineRender(old(a.State())).written),
                              offB, LegacyLineRender(old(b.State())).written)
  {
    a.NextRender(frame, offA);
    b.NextRender(frame, offB);
  }

  /** OfCustomStylePerLine of the old engine. */
  class OldPerLine {
    const line1: OldRenderer
    const line2: OldRenderer
    const line3: OldRenderer
    const line4: OldRenderer

    predicate Distinct() {
      && line1.Obj() != line2.Obj() && line1.Obj() != line3.Obj() && line1.Obj() != line4.Obj()
      && line2.Obj() != line3.Obj() && line2.Obj() != line4.Obj() && line3.Obj() != line4.Obj()
    }

    function Objs(): set<object> {
      {line1.Obj(), line2.Obj(), line3.Obj(), line4.Obj()}
    }

    predicate Valid()
      reads Objs()
    {
      && Distinct()
      && LegacyLineValid(line1.State()) && LegacyLineValid(line2.State())
      && LegacyLineValid(line3.State()) && LegacyLineValid(line4.State())
    }

    /** Every marquee has been given a line. */
    predicate AllReady()
      reads Objs()
    {
      && LegacyReady(line1.State()) && LegacyReady(line2.State())
      && LegacyReady(line3.State()) && LegacyReady(line4.State())
    }

    constructor (l1: OldRenderer, l2: OldRenderer, l3: OldRenderer, l4: OldRenderer)
      ensures line1 == l1 && line2 == l2 && line3 == l3 && line4 == l4
    {
      line1, line2, line3, line4 := l1, l2, l3, l4;
    }

    /** Renders the four lines into their windows, in the same layout as the newer
        engine, and returns the frame. */
    method NextRender(frame: array<Byte>) returns (r: seq<Byte>)
      requires frame.Length == Frame.FrameSize && Valid() && AllReady()
      modifies Objs(), frame
      ensures Valid() && AllReady()
      ensures line1.State() == LegacyLineRender(old(line1.State())).state
      ensures line2.State() == LegacyLineRender(old(line2.State())).state
      ensures line3.State() == LegacyLineRender(old(line3.State())).state
      ensures line4.State() == LegacyLineRender(old(line4.State())).state
      ensures r == frame[..] == Frame.Rows(old(frame[..]),
        LegacyLineRender(old(line1.State())).written, LegacyLineRender(old(line2.State())).written,
        LegacyLineRender(old(line3.State())).written, LegacyLineRender(old(line4.State())).written)
    {
      ObjNotFrame(line1, frame);
      ObjNotFrame(line2, frame);
      ObjNotFrame(line3, frame);
      ObjNotFrame(line4, frame);
      assert Distinct();
      ghost var o3, o4 := line3.State(), line4.State();
      RenderPair(line1, 0, line2, 40, frame);
      assert unchanged(line3.Obj(), line4.Obj());
      assert line3.State() == o3 && line4.State() == o4;
      ghost var n1, n2 := line1.State(), line2.State();
      label Half:
      RenderPair(line3, 20, line4, 60, frame);
      assert unchanged@Half(line1.Obj(), line2.Obj());
      assert line1.State() == n1 && line2.State() == n2;
      r := frame[..];
    }

    method SetLine1(text: seq<Rune>)
      requires Valid()
      modifies Objs()
      ensures Valid() && line1.State() == LegacyLineSet(old(line1.State()), text)
      ensures unchanged(line2.Obj(), line3.Obj(), line4.Obj())
    {
      line1.SetCurrentLine(text);
    }

    method SetLine2(text: seq<Rune>) returns (err: Option<Frame.DisplayError>)
      requires Valid()
      modifies Objs()
      ensures Valid() && err == None
      ensures line2.State() == LegacyLineSet(old(line2.State()), text)
      ensures unchanged(line1.Obj(), line3.Obj(), line4.Obj())
    {
      line2.SetCurrentLine(text);
      err := None;
    }

    method SetLine3(text: seq<Rune>) returns (err: Option<Frame.DisplayError>)
      requires Valid()
      modifies Objs()
      ensures Valid() && err == None
      ensures line3.State() == LegacyLineSet(old(line3.State()), text)
      ensures unchanged(line1.Obj(), line2.Obj(), line4.Obj())
    {
      line3.SetCurrentLine(text);
      err := None;
    }

    method SetLine4(text: seq<Rune>) returns (err: Option<Frame.DisplayError>)
      requires Valid()
      modifies Objs()
      ensures Valid() && err == None
      ensures line4.State() == LegacyLineSet(old(line4.State()), text)
      ensures unchanged(line1.Obj(), line2.Obj(), line3.Obj())
    {
      line4.SetCurrentLine(text);
      err := None;
    }
  }

  /** OfWrapSpanLines of the old engine: the line is kept as text and padded again on
      every render while it is shorter than 80 bytes. */
  class OldWrapSpan {
    var line: seq<Rune>
    var lchanged: bool

    constructor ()
      ensures line == [] && !lchanged
    {
      line, lchanged := [], false;
    }

    /** Pads the line if needed; then, once it has been set or padded, lays its first 80
        bytes over the whole frame. */
    method NextRender(frame: array<Byte>) returns (r: seq<Byte>)
      requires frame.Length == Frame.FrameSize
      modifies this, frame
      ensures line == WrapLine(old(line))
      ensures lchanged == (old(lchanged) || |Encode(old(line))| < Frame.FrameSize)
      ensures r == frame[..]
      ensures lchanged ==> r == Frame.Interleave(Encode(line))
      ensures !lchanged ==> r == old(frame[..])
    {
      if |Encode(line)| < Frame.FrameSize {
        SetLine1(line);
      }
      if lchanged {
        var bytes := Encode(line)[..Frame.FrameSize];
        CopyInto(frame, 0, bytes[0..20]);
        CopyInto(frame, 20, bytes[40..60]);
        CopyInto(frame, 40, bytes[20..40]);
        CopyInto(frame, 60, bytes[60..80]);
        Frame.BlitsInterleave(old(frame[..]), Encode(line));
      }
      r := frame[..];
    }

    method SetLine1(text: seq<Rune>)
      modifies this
      ensures lchanged && line == PadRight(text, Frame.FrameSize)
    {
      line := PadRight(text, Frame.FrameSize);
      lchanged := true;
    }

    method SetLine2(text: seq<Rune>) returns (err: Option<Frame.DisplayError>)
      ensures err == Some(Frame.ErrSettingThisLine)
    {
      err := Some(Frame.ErrSettingThisLine);
    }

    method SetLine3(text: seq<Rune>) returns (err: Option<Frame.DisplayError>)
      ensures err == Some(Frame.ErrSettingThisLine)
    {
      err := Some(Frame.ErrSettingThisLine);
    }

    method SetLine4(text: seq<Rune>) returns (err: Option<Frame.DisplayError>)
      ensures err == Some(Frame.ErrSettingThisLine)
    {
      err := Some(Frame.ErrSettingThisLine);
    }
  }

  /** The old OverflowStyle. */
  datatype OldStrategy = OldPerLineS(perLine: OldPerLine) | OldWrapS(wrap: OldWrapSpan)

  /** DisplayBuffer: owns the frame, which it never clears, and delegates. */
  class DisplayBuffer {
    const internal: array<Byte>
    const overflowContext: OldStrategy

    function Objs(): set<object> {
      match overflowContext
      case OldPerLineS(p) => {p} + p.Objs()
      case OldWrapS(w) => {w}
    }

    predicate Valid()
      reads Objs()
    {
      && internal.Length == Frame.FrameSize
      && (overflowContext.OldPerLineS? ==> overflowContext.perLine.Valid())
    }

    /** NewDisplayBuffer: a zeroed frame. */
    constructor (style: OldStrategy)
      ensures overflowContext == style && fresh(internal) && internal[..] == seq(Frame.FrameSize, _ => 0)
    {
      internal := new Byte[Frame.FrameSize](_ => 0);
      overflowContext := style;
    }

    method NextRender() returns (r: seq<Byte>)
      requires Valid() && internal !in Objs()
      requires overflowContext.OldPerLineS? ==> overflowContext.perLine.AllReady()
      modifies Objs(), internal
      ensures Valid() && r == internal[..]
      ensures overflowContext.OldWrapS? ==> var w := overflowContext.wrap;
        w.line == WrapLine(old(w.line)) &&
        w.lchanged == (old(w.lchanged) || |Encode(old(w.line))| < Frame.FrameSize) &&
        (w.lchanged ==> r == Frame.Interleave(Encode(w.line))) && (!w.lchanged ==> r == old(internal[..]))
      ensures overflowContext.OldPerLineS? ==> var p := overflowContext.perLine;
        && p.AllReady()
        && p.line1.State() == LegacyLineRender(old(p.line1.State())).state
        && p.line2.State() == LegacyLineRender(old(p.line2.State())).state
        && p.line3.State() == LegacyLineRender(old(p.line3.State())).state
        && p.line4.State() == LegacyLineRender(old(p.line4.State())).state
        && r == Frame.Rows(old(internal[..]),
          LegacyLineRender(old(p.line1.State())).written, LegacyLineRender(old(p.line2.State())).written,
          LegacyLineRender(old(p.line3.State())).written, LegacyLineRender(old(p.line4.State())).written)
    {
      match overflowContext
      case OldPerLineS(p) => r := p.NextRender(internal);
      case OldWrapS(w) => r := w.NextRender(internal);
    }

    method SetLine1(text: seq<Rune>)
      requires Valid()
      modifies Objs()
      ensures Valid()
      ensures overflowContext.OldPerLineS? ==> var p := overflowContext.perLine;
        && p.line1.State() == LegacyLineSet(old(p.line1.State()), text)
        && p.line2.State() == old(p.line2.State()) && p.line3.State() == old(p.line3.State())
        && p.line4.State() == old(p.line4.State())
      ensures overflowContext.OldWrapS? ==>
        overflowContext.wrap.line == PadRight(text, Frame.FrameSize) && overflowContext.wrap.lchanged
    {
      match overflowContext
      case OldPerLineS(p) => p.SetLine1(text);
      case OldWrapS(w) => w.SetLine1(text);
    }

    method SetLine2(text: seq<Rune>) returns (err: Option<Frame.DisplayError>)
      requires Valid()
      modifies Objs()
      ensures Valid()
      ensures overflowContext.OldPerLineS? ==> var p := overflowContext.perLine;
        && err == None && p.line2.State() == LegacyLineSet(old(p.line2.State()), text)
        && p.line1.State() == old(p.line1.State()) && p.line3.State() == old(p.line3.State())
        && p.line4.State() == old(p.line4.State())
      ensures overflowContext.OldWrapS? ==> err == Some(Frame.ErrSettingThisLine) && unchanged(overflowContext.wrap)
    {
      match overflowContext
      case OldPerLineS(p) => err := p.SetLine2(text);
      case OldWrapS(w) => err := w.SetLine2(text);
    }

    method SetLine3(text: seq<Rune>) returns (err: Option<Frame.DisplayError>)
      requires Valid()
      modifies Objs()
      ensures Valid()
      ensures overflowContext.OldPerLineS? ==> var p := overflowContext.perLine;
        && err == None && p.line3.State() == LegacyLineSet(old(p.line3.State()), text)
        && p.line1.State() == old(p.line1.State()) && p.line2.State() == old(p.line2.State())
        && p.line4.State() == old(p.line4.State())
      ensures overflowContext.OldWrapS? ==> err == Some(Frame.ErrSettingThisLine) && unchanged(overflowContext.wrap)
    {
      match overflowContext
      case OldPerLineS(p) => err := p.SetLine3(text);
      case OldWrapS(w) => err := w.SetLine3(text);
    }

    method SetLine4(text: seq<Rune>) returns (err: Option<Frame.DisplayError>)
      requires Valid()
      modifies Objs()
      ensures Valid()
      ensures overflowContext.OldPerLineS? ==> var p := overflowContext.perLine;
        && err == None && p.line4.State() == LegacyLineSet(old(p.line4.State()), text)
        && p.line1.State() == old(p.line1.State()) && p.line2.State() == old(p.line2.State())
        && p.line3.State() == old(p.line3.State())
      ensures overflowContext.OldWrapS? ==> err == Some(Frame.ErrSettingThisLine) && unchanged(overflowContext.wrap)
    {
      match overflowContext
      case OldPerLineS(p) => err := p.SetLine4(text);
      case OldWrapS(w) => err := w.SetLine4(text);
    }
  }

  /** For text below 0x80 the old and new wrapping strategies lay the same bytes over the
      frame after a set. */
  lemma OldWrapAscii(text: seq<Rune>)
    requires forall i :: 0 <= i < |text| ==> text[i] < 0x80
    ensures Frame.Interleave(Encode(WrapLine(PadRight(text, Frame.FrameSize))))
         == Frame.Interleave(Lines.Formatted(text, Frame.FrameSize))
  {
    WrapLineSet(text);
    Lines.FormattedAscii(text, Frame.FrameSize);
    var p := PadRight(text, Frame.FrameSize);
    forall i | 0 <= i < |p| ensures p[i] < 0x80 {
      if i < |text| {
        assert p[..|text|][i] == text[i];
      }
    }
    EncodeAscii(p);
  }
}
