/** The three per-line renderers of internal/display/buffer.go as objects whose fields
    `NextRender` and `setCurrentLine` update in place, writing into a 20-byte window of
    the frame array. Each method is proved to follow the step functions of module
    Lines, where the renderers' properties are proved. */
module Renderers {
  import opened Utf8
  import opened Window
  import opened Lines
  import Styles

  /** OfTrimLine. */
  class TrimLine {
    var line: seq<Byte>
    var changed: bool

    function State(): TrimState
      reads this
    {
      TrimState(line, changed)
    }

    constructor ()
      ensures State() == TrimInit
    {
      line := [];
      changed := false;
    }

    /** Copies the first 20 bytes of the line into the window at `off`, once per set. */
    method NextRender(frame: array<Byte>, off: nat)
      requires off + Width <= frame.Length && TrimValid(State())
      modifies this, frame
      ensures State() == TrimRender(old(State())).state
      ensures frame[..] == Blit(old(frame[..]), off, TrimRender(old(State())).written)
    {
      if changed {
        CopyInto(frame, off, line[0..Width]);
        changed := false;
      } else {
        BlitNothing(frame[..], off);
      }
    }

    method SetCurrentLine(text: seq<Rune>)
      modifies this
      ensures State() == TrimSet(old(State()), text)
    {
      line := Formatted(text, Width);
      changed := true;
    }
  }

  /** OfEndlessMarquee. */
  class EndlessMarquee {
    var line: seq<Byte>
    var nextLine: seq<Byte>
    var pos: int
    var counter: int
    var rate: int
    var rendered: bool

    function State(): EndlessState
      reads this
    {
      EndlessState(line, nextLine, pos, counter, rate, rendered)
    }

    constructor (rate: int)
      ensures State() == EndlessInit(rate)
    {
      line, nextLine, pos := [], [], 0;
      counter, this.rate, rendered := 0, rate, false;
    }

    /** Counts a gated call; otherwise copies 20 bytes from `pos`, continued by the queued
        line, and moves on by one byte. The source needs a set before the first call. */
    method NextRender(frame: array<Byte>, off: nat)
      requires off + Width <= frame.Length && EndlessValid(State()) && line != []
      modifies this, frame
      ensures State() == EndlessRender(old(State())).state
      ensures frame[..] == Blit(old(frame[..]), off, EndlessRender(old(State())).written)
    {
      if rendered && counter < rate {
        counter := counter + 1;
        BlitNothing(frame[..], off);
        return;
      }
      Advance(frame, off);
    }

    /** The rendering branch: copies the window at `pos` and moves on by one byte, taking
        up the queued line after the last one. */
    method Advance(frame: array<Byte>, off: nat)
      requires off + Width <= frame.Length && EndlessValid(State()) && line != []
      modifies this, frame
      ensures State() == EndlessAdvance(old(State())).state
      ensures frame[..] == Blit(old(frame[..]), off, EndlessAdvance(old(State())).written)
    {
      counter := 0;
      var trailer: seq<Byte> := [];
      var endPos := pos + Width;
      if endPos >= |line| {
        endPos := |line|;
        trailer := nextLine[..Width - (endPos - pos)];
      }
      var src := line[pos..endPos] + trailer;
      assert src == EndlessWindow(State());
      CopyInto(frame, off, src);
      pos := pos + 1;
      if pos == |line| {
        line := nextLine;
        pos := 0;
      }
      rendered := true;
    }

    method SetCurrentLine(text: seq<Rune>)
      requires EndlessValid(State())
      modifies this
      ensures State() == EndlessSet(old(State()), text)
    {
      var t := text;
      if |Encode(text)| >= Width {
        t := text + Separator;
      }
      nextLine := Formatted(t, Width);
      if |line| == 0 {
        line := nextLine;
        pos := 0;
      }
    }
  }

  /** OfCycleMarquee, with the corrected position handling (see module CycleAsWritten
      for the source's own). */
  class CycleMarquee {
    var slideLeft: bool
    var line: seq<Byte>
    var nextLine: seq<Byte>
    var pos: int
    var changed: bool
    var rendered: bool
    var counter: int
    var rate: int

    function State(): CycleState
      reads this
    {
      CycleState(slideLeft, line, nextLine, pos, changed, rendered, counter, rate)
    }

    constructor (rate: int)
      ensures State() == CycleInit(rate)
    {
      slideLeft, line, nextLine, pos := false, [], [], 0;
      changed, rendered, counter, this.rate := false, false, 0, rate;
    }

    /** Counts a gated call; otherwise either shows a changed 20-byte line once, or
        shows the window at `pos` and moves it one byte forward or back. */
    method NextRender(frame: array<Byte>, off: nat)
      requires off + Width <= frame.Length && CycleValid(State())
      modifies this, frame
      ensures State() == CycleRender(old(State())).state
      ensures frame[..] == Blit(old(frame[..]), off, CycleRender(old(State())).written)
    {
      if rendered && counter < rate {
        counter := counter + 1;
        BlitNothing(frame[..], off);
        return;
      }
      if |nextLine| == Width {
        Snap(frame, off);
      } else {
        Slide(frame, off);
      }
    }

    /** The branch for a queued line of exactly 20 bytes: copy it once per set and start
        it at 0. */
    method Snap(frame: array<Byte>, off: nat)
      requires off + Width <= frame.Length && CycleValid(State()) && |nextLine| == Width
      modifies this, frame
      ensures State() == CycleAdvance(old(State())).state
      ensures frame[..] == Blit(old(frame[..]), off, CycleAdvance(old(State())).written)
    {
      counter := 0;
      if changed {
        CopyInto(frame, off, nextLine[..Width]);
        line := nextLine;
        changed := false;
        pos := 0;
      } else {
        BlitNothing(frame[..], off);
      }
    }

    /** The scrolling branch: show the window at `pos`, then move one byte forward while
        there is text beyond it, or back towards 0. */
    method Slide(frame: array<Byte>, off: nat)
      requires off + Width <= frame.Length && CycleValid(State()) && |nextLine| != Width
      modifies this, frame
      ensures State() == CycleAdvance(old(State())).state
      ensures frame[..] == Blit(old(frame[..]), off, CycleAdvance(old(State())).written)
    {
      var endPos := pos + Width;
      if endPos >= |line| {
        endPos := |line|;
      }
      CopyInto(frame, off, line[pos..endPos]);
      if slideLeft {
        slideLeft := endPos < |line|;
        if slideLeft {
          pos := pos + 1;
        }
      } else {
        if pos > 0 {
          pos := pos - 1;
        }
        slideLeft := pos == 0;
        if slideLeft {
          line := nextLine;
        }
      }
      counter := 0;
      rendered := true;
    }

    method SetCurrentLine(text: seq<Rune>)
      modifies this
      ensures State() == CycleSet(old(State()), text)
    {
      nextLine := Formatted(text, Width);
      changed := true;
      if |line| == 0 {
        line := nextLine;
        pos := 0;
        slideLeft := true;
      }
    }
  }

  /** A renderer of one of the three kinds (the NoWrapOverflowStyle interface). */
  datatype LineRenderer =
    | TrimR(trim: TrimLine)
    | EndlessR(endless: EndlessMarquee)
    | CycleR(cycle: CycleMarquee)
  {
    function Obj(): object {
      match this
      case TrimR(t) => t
      case EndlessR(e) => e
      case CycleR(c) => c
    }

    function State(): LineState
      reads Obj()
    {
      match this
      case TrimR(t) => Trim(t.State())
      case EndlessR(e) => Endless(e.State())
      case CycleR(c) => Cycle(c.State())
    }

    method NextRender(frame: array<Byte>, off: nat)
      requires off + Width <= frame.Length && LineValid(State()) && Ready(State())
      modifies Obj(), frame
      ensures State() == LineRender(old(State())).state
      ensures frame[..] == Blit(old(frame[..]), off, LineRender(old(State())).written)
    {
      match this
      case TrimR(t) => t.NextRender(frame, off);
      case EndlessR(e) => e.NextRender(frame, off);
      case CycleR(c) => c.NextRender(frame, off);
    }

    method SetCurrentLine(text: seq<Rune>)
      requires LineValid(State())
      modifies Obj()
      ensures State() == LineSet(old(State()), text)
    {
      match this
      case TrimR(t) => t.SetCurrentLine(text);
      case EndlessR(e) => e.SetCurrentLine(text);
      case CycleR(c) => c.SetCurrentLine(text);
    }
  }

  /** A renderer is never the frame it renders into. */
  lemma ObjNotFrame(l: LineRenderer, frame: array<Byte>)
    ensures l.Obj() != frame
  {
  }

  /** The renderer a parsed style selects (`&OfTrimLine{}`, `&OfEndlessMarquee{rate: …}`,
      `&OfCycleMarquee{rate: …}`). */
  method MakeRenderer(kind: Styles.StyleKind) returns (r: LineRenderer)
    ensures fresh(r.Obj()) && r.State() == InitLine(kind)
  {
    match kind
    case TrimStyle =>
      var t := new TrimLine();
      r := TrimR(t);
    case EndlessStyle(rate) =>
      var e := new EndlessMarquee(rate);
      r := EndlessR(e);
    case CycleStyle(rate) =>
      var c := new CycleMarquee(rate);
      r := CycleR(c);
  }
}
