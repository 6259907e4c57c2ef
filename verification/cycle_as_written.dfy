/** `OfCycleMarquee.NextRender` of internal/display/buffer.go exactly as written, with
    Go's slice-bounds panic as an outcome, next to the corrected step of module Lines.
    The two agree except in two situations, and each of those leads to a panic from a
    sequence of ordinary calls:
    - a 20-byte line is taken up without resetting `pos`, so a position left over from
      a longer line can lie beyond its end;
    - going back from position 0 makes `pos` negative. */
module CycleAsWritten {
  import opened Utf8
  import opened Wrappers
  import opened Window
  import opened Lines

  /** The result of one call: the program panics, or goes on. */
  datatype Outcome = Panic | Next(step: Step<CycleState>)

  /** One call past the gate, as the source writes it. `line[pos:endPos]` panics unless
      0 <= pos <= endPos; `endPos` never exceeds the line's length. */
  function CycleAdvanceAsWritten(s: CycleState): (r: Outcome)
    ensures r.Panic? <==> |s.nextLine| != Width && (s.pos < 0 || s.pos > |s.line|)
  {
    if |s.nextLine| == Width then
      if s.changed then Next(Step(s.(counter := 0, line := s.nextLine, changed := false), s.nextLine[..Width]))
      else Next(Step(s.(counter := 0), []))
    else
      var endPos := Min(s.pos + Width, |s.line|);
      if s.pos < 0 || s.pos > endPos then Panic
      else
        var shown := s.line[s.pos..endPos];
        var s1 :=
          if s.slideLeft then
            if endPos < |s.line| then s.(pos := s.pos + 1) else s.(slideLeft := false)
          else
            var pos := s.pos - 1;
            s.(pos := pos, slideLeft := pos == 0, line := if pos == 0 then s.nextLine else s.line);
        Next(Step(s1.(counter := 0, rendered := true), shown))
  }

  /** `NextRender` as written: the gate, then the step above. */
  function CycleRenderAsWritten(s: CycleState): (r: Outcome)
    ensures Gated(s.rendered, s.counter, s.rate) ==> r == Next(Step(s.(counter := s.counter + 1), []))
  {
    if Gated(s.rendered, s.counter, s.rate) then Next(Step(s.(counter := s.counter + 1), []))
    else CycleAdvanceAsWritten(s)
  }

  /** The source and the corrected step agree on every valid state except on taking up
      a 20-byte line (the source keeps `pos`) and on going back from 0 (the source goes
      to -1). */
  lemma AsWrittenAgrees(s: CycleState)
    requires CycleValid(s)
    requires if |s.nextLine| == Width then !s.changed else s.slideLeft || s.pos > 0
    ensures CycleAdvanceAsWritten(s) == Next(CycleAdvance(s))
  {
  }

  /** The two places where they differ. */
  lemma AsWrittenDiffers(s: CycleState)
    requires CycleValid(s)
    ensures |s.nextLine| == Width && s.changed && s.pos > 0 ==>
      CycleAdvanceAsWritten(s).step.state.pos == s.pos && CycleAdvance(s).state.pos == 0
    ensures |s.nextLine| != Width && !s.slideLeft && s.pos == 0 ==>
      CycleAdvanceAsWritten(s).step.state.pos == -1 && CycleAdvance(s).state.pos == 0
  {
  }

  // ---------------------------------------------------------------------------
  // Sequences of calls

  datatype Event = SetLine(text: seq<Rune>) | Render

  function Renders(n: nat): (r: seq<Event>)
    ensures |r| == n && forall i :: 0 <= i < n ==> r[i] == Render
  {
    seq(n, _ => Render)
  }

  /** n renders followed by more calls: one render, then the rest. */
  lemma RendersCons(n: nat, rest: seq<Event>)
    ensures n == 0 ==> Renders(n) + rest == rest
    ensures n > 0 ==> Renders(n) + rest == [Render] + (Renders(n - 1) + rest)
  {
    if n > 0 {
      assert (Renders(n) + rest)[1..] == Renders(n - 1) + rest;
    } else {
      assert Renders(n) == [];
    }
  }

  /** The source's marquee driven by a sequence of calls; None once it has panicked. */
  function Run(s: CycleState, events: seq<Event>): (r: Option<CycleState>)
    ensures events == [] ==> r == Some(s)
    decreases |events|
  {
    if events == [] then Some(s)
    else match events[0]
      case SetLine(t) => Run(CycleSet(s, t), events[1..])
      case Render =>
        match CycleRenderAsWritten(s)
        case Panic => None
        case Next(st) => Run(st.state, events[1..])
  }

  /** The corrected marquee driven by the same calls; it never panics and keeps its
      invariant. */
  function RunFixed(s: CycleState, events: seq<Event>): (r: CycleState)
    requires CycleValid(s)
    ensures CycleValid(r)
    ensures events == [] ==> r == s
    decreases |events|
  {
    if events == [] then s
    else match events[0]
      case SetLine(t) => RunFixed(CycleSet(s, t), events[1..])
      case Render => RunFixed(CycleRender(s).state, events[1..])
  }

  lemma RunCons(s: CycleState, e: Event, rest: seq<Event>)
    ensures Run(s, [e] + rest) ==
      match e
      case SetLine(t) => Run(CycleSet(s, t), rest)
      case Render => (match CycleRenderAsWritten(s) case Panic => None case Next(st) => Run(st.state, rest))
  {
    assert ([e] + rest)[1..] == rest;
  }

  lemma RunFixedCons(s: CycleState, e: Event, rest: seq<Event>)
    requires CycleValid(s)
    ensures RunFixed(s, [e] + rest) ==
      match e
      case SetLine(t) => RunFixed(CycleSet(s, t), rest)
      case Render => RunFixed(CycleRender(s).state, rest)
  {
    assert ([e] + rest)[1..] == rest;
  }

  /** With rate 0, forward scrolling runs the same in both: n renders move `pos` on by n
      while there is text beyond the window. */
  lemma {:induction false} RunForward(s: CycleState, n: nat, rest: seq<Event>)
    requires CycleValid(s) && s.slideLeft && |s.nextLine| != Width && s.rate <= 0
    requires s.pos + n + Width <= |s.line|
    ensures Run(s, Renders(n) + rest) == Run(CycleAdvances(s, n), rest)
    ensures RunFixed(s, Renders(n) + rest) == RunFixed(CycleAdvances(s, n), rest)
    decreases n
  {
    if n > 0 {
      RendersCons(n, rest);
      ForwardStep(s, Renders(n - 1) + rest);
      var t := CycleAdvance(s).state;
      RunForward(t, n - 1, rest);
      assert CycleAdvances(s, n) == CycleAdvances(t, n - 1);
    } else {
      RendersCons(n, rest);
    }
  }

  /** One forward render, the same in both. */
  lemma ForwardStep(s: CycleState, rest: seq<Event>)
    requires CycleValid(s) && s.slideLeft && |s.nextLine| != Width && s.rate <= 0
    requires s.pos + 1 + Width <= |s.line|
    ensures Run(s, [Render] + rest) == Run(CycleAdvance(s).state, rest)
    ensures RunFixed(s, [Render] + rest) == RunFixed(CycleAdvance(s).state, rest)
    ensures CycleAdvance(s).state == s.(pos := s.pos + 1, counter := 0, rendered := true)
  {
    RunCons(s, Render, rest);
    RunFixedCons(s, Render, rest);
    AsWrittenAgrees(s);
  }

  /** Finding, first case, on a fresh marquee at rate 0 (`cm:0`): a line that has scrolled to position 21 or beyond, then a
      20-byte line, then a longer line again. The 20-byte line is taken up with the old
      position, and the next render slices `line[21:20]`. */
  lemma StalePositionPanics(a: seq<Rune>, b: seq<Rune>)
    requires |Formatted(a, Width)| == Width && |Formatted(b, Width)| >= 41
    ensures var s := Run(CycleInit(0), [SetLine(b)] + Renders(21) + [SetLine(a), Render, SetLine(b)]);
      s.Some? && s.value.pos == 21 && |s.value.line| == Width && CycleRenderAsWritten(s.value) == Panic
  {
    var tail := [SetLine(a), Render, SetLine(b)];
    var s2 := ScrolledBy21(b, tail);
    var s3 := CycleSet(s2, a);
    RunCons(s2, SetLine(a), [Render, SetLine(b)]);
    var s4 := CycleRenderAsWritten(s3).step.state;
    assert s4.pos == 21 && |s4.line| == Width;
    RunCons(s3, Render, [SetLine(b)]);
    RunCons(s4, SetLine(b), []);
  }

  /** The corrected marquee on the same calls takes up the 20-byte line at position 0
      and shows all of it. */
  lemma StalePositionFixed(a: seq<Rune>, b: seq<Rune>)
    requires |Formatted(a, Width)| == Width && |Formatted(b, Width)| >= 41
    ensures var s := RunFixed(CycleInit(0), [SetLine(b)] + Renders(21) + [SetLine(a), Render, SetLine(b)]);
      s.pos == 0 && s.line == Formatted(a, Width) && CycleRender(s).written == Formatted(a, Width)
  {
    StaleFixedTrace(a, b);
  }

  lemma StaleFixedTrace(a: seq<Rune>, b: seq<Rune>)
    requires |Formatted(a, Width)| == Width && |Formatted(b, Width)| >= 41
    ensures var s := RunFixed(CycleInit(0), [SetLine(b)] + Renders(21) + [SetLine(a), Render, SetLine(b)]);
      s.pos == 0 && s.line == Formatted(a, Width) && s.rate == 0 && |s.nextLine| >= 41
  {
    var tail := [SetLine(a), Render, SetLine(b)];
    var s2 := ScrolledBy21(b, tail);
    var s3 := CycleSet(s2, a);
    RunFixedCons(s2, SetLine(a), [Render, SetLine(b)]);
    var s4 := CycleRender(s3).state;
    assert s4.pos == 0 && s4.line == Formatted(a, Width);
    RunFixedCons(s3, Render, [SetLine(b)]);
    RunFixedCons(s4, SetLine(b), []);
  }

  /** The shared prefix of the first case: set a long line and scroll it by 21. */
  lemma ScrolledBy21(b: seq<Rune>, tail: seq<Event>) returns (s2: CycleState)
    requires |Formatted(b, Width)| >= 41
    ensures CycleValid(s2) && s2.rate == 0 && s2.pos == 21 && s2.line == Formatted(b, Width)
    ensures Run(CycleInit(0), [SetLine(b)] + Renders(21) + tail) == Run(s2, tail)
    ensures RunFixed(CycleInit(0), [SetLine(b)] + Renders(21) + tail) == RunFixed(s2, tail)
  {
    var s0 := CycleInit(0);
    var s1 := CycleSet(s0, b);
    RunCons(s0, SetLine(b), Renders(21) + tail);
    RunFixedCons(s0, SetLine(b), Renders(21) + tail);
    assert [SetLine(b)] + Renders(21) + tail == [SetLine(b)] + (Renders(21) + tail);
    RunForward(s1, 21, tail);
    CycleForward(s1, 21);
    s2 := CycleAdvances(s1, 21);
  }

  /** Finding, second case, on a fresh marquee at rate 0: a 20-byte line followed by a longer one. The first render
      after the longer line is set shows the old line and turns back at position 0; the
      next moves `pos` to -1; the one after slices `line[-1:19]`. */
  lemma NegativePositionPanics(a: seq<Rune>, b: seq<Rune>)
    requires |Formatted(a, Width)| == Width && |Formatted(b, Width)| > Width
    ensures var s := Run(CycleInit(0), [SetLine(a), Render, SetLine(b), Render, Render]);
      s.Some? && s.value.pos == -1 && CycleRenderAsWritten(s.value) == Panic
  {
    var s0 := CycleInit(0);
    var s1 := CycleSet(s0, a);
    RunCons(s0, SetLine(a), [Render, SetLine(b), Render, Render]);
    var s2 := CycleRenderAsWritten(s1).step.state;
    RunCons(s1, Render, [SetLine(b), Render, Render]);
    var s3 := CycleSet(s2, b);
    RunCons(s2, SetLine(b), [Render, Render]);
    var s4 := CycleRenderAsWritten(s3).step.state;
    assert s4.pos == 0 && !s4.slideLeft && s4.rendered;
    RunCons(s3, Render, [Render]);
    var s5 := CycleRenderAsWritten(s4).step.state;
    assert s5.pos == -1;
    RunCons(s4, Render, []);
  }

  /** The corrected marquee on the same calls takes up the longer line at position 0,
      going forward, and shows its first 20 bytes next. */
  lemma NegativePositionFixed(a: seq<Rune>, b: seq<Rune>)
    requires |Formatted(a, Width)| == Width && |Formatted(b, Width)| > Width
    ensures var s := RunFixed(CycleInit(0), [SetLine(a), Render, SetLine(b), Render, Render]);
      s.pos == 0 && s.slideLeft && s.line == Formatted(b, Width)
      && CycleRender(s).written == Formatted(b, Width)[..Width]
  {
    var s0 := CycleInit(0);
    var s1 := CycleSet(s0, a);
    RunFixedCons(s0, SetLine(a), [Render, SetLine(b), Render, Render]);
    var s2 := CycleRender(s1).state;
    RunFixedCons(s1, Render, [SetLine(b), Render, Render]);
    var s3 := CycleSet(s2, b);
    RunFixedCons(s2, SetLine(b), [Render, Render]);
    var s4 := CycleRender(s3).state;
    assert s4.pos == 0 && !s4.slideLeft && s4.rendered;
    RunFixedCons(s3, Render, [Render]);
    var s5 := CycleRender(s4).state;
    assert s5.pos == 0 && s5.slideLeft && s5.line == Formatted(b, Width);
    RunFixedCons(s4, Render, []);
  }

  /** The second case needs no line at all: at rate 0, rendering twice before any set goes back
      from position 0 to -1 and then slices `line[-1:0]`; the corrected marquee stays
      at 0. */
  lemma RenderBeforeSetPanics()
    ensures Run(CycleInit(0), [Render, Render]) == None
    ensures RunFixed(CycleInit(0), [Render, Render]).pos == 0
  {
    var s0 := CycleInit(0);
    RunCons(s0, Render, [Render]);
    var s1 := CycleRenderAsWritten(s0).step.state;
    assert s1.pos == -1;
    RunCons(s1, Render, []);
    RunFixedCons(s0, Render, [Render]);
    RunFixedCons(CycleRender(s0).state, Render, []);
  }

  /** Both cases happen with plain ASCII lines: "ab" is stored as 20 bytes, and a line of
      41 letters as itself. */
  lemma AsciiInstances()
    ensures |Formatted([0x61, 0x62], Width)| == Width
    ensures |Formatted(seq(41, _ => 0x61), Width)| == 41
  {
    FormattedAscii([0x61, 0x62], Width);
    FormattedAscii(seq(41, _ => 0x61), Width);
  }
}
