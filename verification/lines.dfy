/** The three per-line renderers of internal/display/buffer.go as values: the state each
    one keeps, what one `NextRender` call copies into its 20-byte window and how the
    state moves on, and what `setCurrentLine` stores. The classes in renderers.dfy are
    proved to follow these functions; the properties are proved here. */
module Lines {
  import opened Utf8
  import opened CharMap
  import opened Window
  import Styles

  /** One render: the renderer's next state and the bytes it copies into its window
      (empty when it copies nothing). */
  datatype Step<S> = Step(state: S, written: seq<Byte>)

  /** A line as every renderer stores it: padded with spaces to `width` code points,
      then passed through the glyph map. */
  function Formatted(text: seq<Rune>, width: nat): (r: seq<Byte>)
    ensures |r| >= width
  {
    var padded := PadRight(text, width);
    MapGlyphsLength(padded);
    MapGlyphs(padded)
  }

  /** Text below 0x80 is stored as its padded self. */
  lemma FormattedAscii(text: seq<Rune>, width: nat)
    requires forall i :: 0 <= i < |text| ==> text[i] < 0x80
    ensures Formatted(text, width) == PadRight(text, width)
  {
    var p := PadRight(text, width);
    forall i | 0 <= i < |p| ensures p[i] < 0x80 {
      if i < |text| {
        assert p[..|text|][i] == text[i];
      }
    }
    MapGlyphsAscii(p);
  }

  /** The cadence gate of both marquees: after the first visible render, a call made
      while `counter < rate` only counts. */
  predicate Gated(rendered: bool, counter: int, rate: int) {
    rendered && counter < rate
  }

  // ---------------------------------------------------------------------------
  // Trim (OfTrimLine)

  datatype TrimState = TrimState(line: seq<Byte>, changed: bool)

  const TrimInit: TrimState := TrimState([], false)

  predicate TrimValid(s: TrimState) {
    s.changed ==> |s.line| >= Width
  }

  function TrimSet(s: TrimState, text: seq<Rune>): (r: TrimState)
    ensures TrimValid(r) && r.changed
  {
    TrimState(Formatted(text, Width), true)
  }

  /** Copy the first 20 bytes once after each set. */
  function TrimRender(s: TrimState): (r: Step<TrimState>)
    requires TrimValid(s)
    ensures TrimValid(r.state) && !r.state.changed && r.state.line == s.line
    ensures |r.written| == if s.changed then Width else 0
  {
    if s.changed then Step(s.(changed := false), s.line[0..Width]) else Step(s, [])
  }

  /** After a set, the next render shows the first 20 bytes of the stored line and the
      one after it writes nothing and changes nothing. */
  lemma TrimShowsOnce(s: TrimState, text: seq<Rune>)
    ensures TrimRender(TrimSet(s, text)).written == Formatted(text, Width)[..Width]
    ensures TrimRender(TrimRender(TrimSet(s, text)).state).written == []
    ensures TrimRender(TrimRender(TrimSet(s, text)).state).state == TrimRender(TrimSet(s, text)).state
  {
  }

  /** For text below 0x80 the trimmed line is the text's first 20 characters, padded
      with spaces when shorter. */
  lemma TrimAscii(s: TrimState, text: seq<Rune>)
    requires forall i :: 0 <= i < |text| ==> text[i] < 0x80
    ensures TrimRender(TrimSet(s, text)).written == PadRight(text, Width)[..Width]
  {
    FormattedAscii(text, Width);
  }

  // ---------------------------------------------------------------------------
  // Endless marquee (OfEndlessMarquee)

  datatype EndlessState = EndlessState(
    line: seq<Byte>, nextLine: seq<Byte>, pos: int,
    counter: int, rate: int, rendered: bool)

  function EndlessInit(rate: int): EndlessState {
    EndlessState([], [], 0, 0, rate, false)
  }

  /** Before the first set both lines are empty and nothing has been shown; afterwards
      both hold at least 20 bytes and `pos` lies inside the current line. */
  predicate EndlessValid(s: EndlessState) {
    && 0 <= s.counter
    && (s.line == [] ==> s.nextLine == [] && s.pos == 0 && !s.rendered)
    && (s.line != [] ==> |s.line| >= Width && |s.nextLine| >= Width && 0 <= s.pos < |s.line|)
  }

  /** The separator appended to a line of 20 bytes or more, between two passes. */
  const Separator: seq<Rune> := [0x20, 0x2E, 0x20]

  /** The line a set queues: a text of 20 bytes or more (counted before the glyph map)
      gets the separator. */
  function EndlessText(text: seq<Rune>): seq<Rune> {
    if |Encode(text)| >= Width then text + Separator else text
  }

  /** `setCurrentLine`: queue the new line; the very first set also starts showing it. */
  function EndlessSet(s: EndlessState, text: seq<Rune>): (r: EndlessState)
    requires EndlessValid(s)
    ensures EndlessValid(r) && r.line != []
  {
    var next := Formatted(EndlessText(text), Width);
    if s.line == [] then s.(nextLine := next, line := next, pos := 0) else s.(nextLine := next)
  }

  /** A set changes only the queued line, except the first, which also starts it. */
  lemma EndlessSetKeeps(s: EndlessState, text: seq<Rune>)
    requires EndlessValid(s)
    ensures s.line != [] ==> EndlessSet(s, text) == s.(nextLine := EndlessSet(s, text).nextLine)
    ensures s.line == [] ==> EndlessSet(s, text).line == EndlessSet(s, text).nextLine
    ensures EndlessSet(s, text).pos == s.pos
  {
  }

  /** Text below 0x80 is queued as itself followed by " . " when it has 20 characters or
      more, and padded with spaces to 20 otherwise. */
  lemma EndlessSetAscii(s: EndlessState, text: seq<Rune>)
    requires EndlessValid(s)
    requires forall i :: 0 <= i < |text| ==> text[i] < 0x80
    ensures |text| >= Width ==> EndlessSet(s, text).nextLine == text + Separator
    ensures |text| < Width ==> EndlessSet(s, text).nextLine == PadRight(text, Width)
  {
    EncodeAscii(text);
    var t := EndlessText(text);
    forall i | 0 <= i < |t| ensures t[i] < 0x80 {
      if i >= |text| {
        assert t[i] == Separator[i - |text|];
      }
    }
    FormattedAscii(t, Width);
  }

  /** The bytes a visible render shows: 20 bytes of the current line from `pos`,
      continued by the start of the queued line. */
  function EndlessWindow(s: EndlessState): (r: seq<Byte>)
    requires EndlessValid(s) && s.line != []
    ensures r == (s.line + s.nextLine)[s.pos..s.pos + Width]
  {
    var endPos := s.pos + Width;
    if endPos >= |s.line| then s.line[s.pos..] + s.nextLine[..Width - (|s.line| - s.pos)]
    else s.line[s.pos..endPos]
  }

  /** A visible render: show the window, move on by one byte, and take up the queued
      line once the current one has scrolled past. */
  function EndlessAdvance(s: EndlessState): (r: Step<EndlessState>)
    requires EndlessValid(s) && s.line != []
    ensures EndlessValid(r.state) && r.state.line != []
    ensures |r.written| == Width
  {
    var pos := s.pos + 1;
    var next := if pos == |s.line| then s.(line := s.nextLine, pos := 0) else s.(pos := pos);
    Step(next.(counter := 0, rendered := true), EndlessWindow(s))
  }

  /** `NextRender`: a gated call only counts; any other call renders. The source needs a
      set first: without one, the first render slices an empty next line. */
  function EndlessRender(s: EndlessState): (r: Step<EndlessState>)
    requires EndlessValid(s) && s.line != []
    ensures EndlessValid(r.state) && r.state.line != []
  {
    if Gated(s.rendered, s.counter, s.rate) then Step(s.(counter := s.counter + 1), [])
    else EndlessAdvance(s)
  }

  /** Consecutive visible windows overlap in 19 bytes: the text moves left by exactly one
      character per visible render, also across the switch to the queued line. */
  lemma EndlessScrollsByOne(s: EndlessState)
    requires EndlessValid(s) && s.line != []
    ensures EndlessWindow(EndlessAdvance(s).state)[..Width - 1] == EndlessAdvance(s).written[1..]
  {
    if s.pos + 1 == |s.line| {
      ScrollsOntoNext(s);
    } else {
      ScrollsWithin(s);
    }
  }

  lemma ScrollsOntoNext(s: EndlessState)
    requires EndlessValid(s) && s.line != [] && s.pos + 1 == |s.line|
    ensures EndlessWindow(EndlessAdvance(s).state)[..Width - 1] == EndlessAdvance(s).written[1..]
  {
    var u := s.line + s.nextLine;
    assert EndlessAdvance(s).written[1..] == u[s.pos + 1..s.pos + Width];
    assert u[s.pos + 1..s.pos + Width] == s.nextLine[..Width - 1];
    var v := s.nextLine + s.nextLine;
    assert EndlessWindow(EndlessAdvance(s).state)[..Width - 1] == v[..Width - 1];
  }

  lemma ScrollsWithin(s: EndlessState)
    requires EndlessValid(s) && s.line != [] && s.pos + 1 < |s.line|
    ensures EndlessWindow(EndlessAdvance(s).state)[..Width - 1] == EndlessAdvance(s).written[1..]
  {
    var u := s.line + s.nextLine;
    assert EndlessAdvance(s).written[1..] == u[s.pos + 1..s.pos + Width];
    assert EndlessWindow(EndlessAdvance(s).state)[..Width - 1] == u[s.pos + 1..s.pos + Width];
  }

  /** n visible renders in a row. */
  function EndlessAdvances(s: EndlessState, n: nat): (r: EndlessState)
    requires EndlessValid(s) && s.line != []
    ensures EndlessValid(r) && r.line != []
    decreases n
  {
    if n == 0 then s else EndlessAdvances(EndlessAdvance(s).state, n - 1)
  }

  /** With no further set (the queued line is the current one), n visible renders move
      `pos` on by n modulo the line length. */
  lemma {:induction false} EndlessAdvancesAdd(s: EndlessState, a: nat, b: nat)
    requires EndlessValid(s) && s.line != []
    ensures EndlessAdvances(s, a + b) == EndlessAdvances(EndlessAdvances(s, a), b)
    decreases a
  {
    if a > 0 {
      EndlessAdvancesAdd(EndlessAdvance(s).state, a - 1, b);
    }
  }

  /** With no further set (the queued line is the current one), the line stays and each
      visible render moves `pos` on by one, back to 0 after the last byte of the line
      (stated for fewer than two full turns). */
  lemma {:induction false} EndlessForward(s: EndlessState, n: nat)
    requires EndlessValid(s) && s.line != [] && s.nextLine == s.line
    requires s.pos + n < 2 * |s.line|
    ensures EndlessAdvances(s, n).line == s.line && EndlessAdvances(s, n).nextLine == s.line
    ensures EndlessAdvances(s, n).pos ==
      if s.pos + n < |s.line| then s.pos + n else s.pos + n - |s.line|
    decreases n
  {
    if n > 0 {
      EndlessForward(EndlessAdvance(s).state, n - 1);
    }
  }

  /** So |line| visible renders bring `pos` back where it was. */
  lemma EndlessFullTurn(s: EndlessState)
    requires EndlessValid(s) && s.line != [] && s.nextLine == s.line
    ensures var t := EndlessAdvances(s, |s.line|);
      t.line == s.line && t.nextLine == s.line && t.pos == s.pos
  {
    EndlessForward(s, |s.line|);
  }

  /** With no further set, the line stays the same whatever the number of renders. */
  lemma {:induction false} EndlessStays(s: EndlessState, n: nat)
    requires EndlessValid(s) && s.line != [] && s.nextLine == s.line
    ensures EndlessAdvances(s, n).line == s.line && EndlessAdvances(s, n).nextLine == s.line
    decreases n
  {
    if n > 0 {
      EndlessStays(EndlessAdvance(s).state, n - 1);
    }
  }

  /** With no further set, the sequence of visible windows repeats with period the
      length of the line. */
  lemma EndlessPeriodic(s: EndlessState, n: nat)
    requires EndlessValid(s) && s.line != [] && s.nextLine == s.line
    ensures EndlessWindow(EndlessAdvances(s, n + |s.line|)) == EndlessWindow(EndlessAdvances(s, n))
  {
    EndlessStays(s, n);
    EndlessAdvancesAdd(s, n, |s.line|);
    EndlessFullTurn(EndlessAdvances(s, n));
  }

  /** n calls of `NextRender`. */
  function EndlessRenders(s: EndlessState, n: nat): (r: EndlessState)
    requires EndlessValid(s) && s.line != []
    ensures EndlessValid(r) && r.line != []
    decreases n
  {
    if n == 0 then s else EndlessRenders(EndlessRender(s).state, n - 1)
  }

  /** Right after a visible render, the next `rate` calls only count and write nothing,
      and the call after them renders: one visible render in every rate + 1 calls. */
  lemma {:induction false} EndlessCadence(s: EndlessState, k: nat)
    requires EndlessValid(s) && s.line != [] && s.rendered && s.counter == 0
    requires k <= s.rate
    ensures EndlessRenders(s, k) == s.(counter := k)
    ensures k < s.rate ==> EndlessRender(EndlessRenders(s, k)).written == []
    ensures k == s.rate ==> EndlessRender(EndlessRenders(s, k)) == EndlessAdvance(s.(counter := k))
  {
    if k > 0 {
      EndlessCadence(s, k - 1);
      var t := EndlessRenders(s, k - 1);
      assert EndlessRenders(s, k) == EndlessRenders(EndlessRender(s).state, k - 1);
      RendersStep(s, k - 1);
    }
  }

  lemma {:induction false} RendersStep(s: EndlessState, n: nat)
    requires EndlessValid(s) && s.line != []
    ensures EndlessRenders(s, n + 1) == EndlessRender(EndlessRenders(s, n)).state
    decreases n
  {
    if n > 0 {
      RendersStep(EndlessRender(s).state, n - 1);
    }
  }

  /** With a rate of zero or less every call renders. */
  lemma EndlessUngated(s: EndlessState)
    requires EndlessValid(s) && s.line != [] && s.rate <= 0
    ensures EndlessRender(s) == EndlessAdvance(s)
  {
  }

  // ---------------------------------------------------------------------------
  // Cycle marquee (OfCycleMarquee), with the two slicing defects corrected; the
  // source as written is in cycle_as_written.dfy.

  datatype CycleState = CycleState(
    slideLeft: bool, line: seq<Byte>, nextLine: seq<Byte>, pos: int,
    changed: bool, rendered: bool, counter: int, rate: int)

  function CycleInit(rate: int): CycleState {
    CycleState(false, [], [], 0, false, false, 0, rate)
  }

  /** `pos` is 0 or leaves a whole window inside the line, and stored lines are empty
      or at least 20 bytes. */
  predicate CycleValid(s: CycleState) {
    && 0 <= s.counter
    && 0 <= s.pos && (s.pos == 0 || s.pos + Width <= |s.line|)
    && (s.line == [] || |s.line| >= Width)
    && (s.nextLine == [] || |s.nextLine| >= Width)
  }

  /** `setCurrentLine`: queue the line and mark it changed; the very first set also
      starts it, sliding left from 0. */
  function CycleSet(s: CycleState, text: seq<Rune>): (r: CycleState)
    ensures CycleValid(s) ==> CycleValid(r)
    ensures r.changed && r.line != [] && r.nextLine == Formatted(text, Width)
  {
    var next := Formatted(text, Width);
    var s1 := s.(nextLine := next, changed := true);
    if s.line == [] then s1.(line := next, pos := 0, slideLeft := true) else s1
  }

  /** The scrolling branch's window: from `pos`, at most 20 bytes, cut at the end of the
      line. */
  function CycleWindow(s: CycleState): (r: seq<Byte>)
    requires CycleValid(s)
    ensures s.line != [] ==> r == s.line[s.pos..s.pos + Width]
    ensures s.line == [] ==> r == []
  {
    var endPos := Min(s.pos + Width, |s.line|);
    s.line[s.pos..endPos]
  }

  /** A call past the gate. A queued line of exactly 20 bytes is shown as it is, once
      per set, and starts afresh at 0; otherwise the window moves one byte forward while
      there is text beyond it, turns without moving, moves back, and at 0 turns again and
      takes up the queued line. */
  function CycleAdvance(s: CycleState): (r: Step<CycleState>)
    requires CycleValid(s)
    ensures CycleValid(r.state)
  {
    if |s.nextLine| == Width then
      if s.changed then Step(s.(counter := 0, line := s.nextLine, changed := false, pos := 0), s.nextLine)
      else Step(s.(counter := 0), [])
    else
      var endPos := Min(s.pos + Width, |s.line|);
      var shown := CycleWindow(s);
      var s1 :=
        if s.slideLeft then
          if endPos < |s.line| then s.(pos := s.pos + 1) else s.(slideLeft := false)
        else
          var pos := if s.pos > 0 then s.pos - 1 else 0;
          if pos == 0 then s.(pos := 0, slideLeft := true, line := s.nextLine) else s.(pos := pos);
      Step(s1.(counter := 0, rendered := true), shown)
  }

  /** `NextRender`: a gated call only counts; any other call advances. */
  function CycleRender(s: CycleState): (r: Step<CycleState>)
    requires CycleValid(s)
    ensures CycleValid(r.state)
  {
    if Gated(s.rendered, s.counter, s.rate) then Step(s.(counter := s.counter + 1), [])
    else CycleAdvance(s)
  }

  /** A scrolling render shows a full 20-byte window once a line is set. */
  lemma CycleWindowFull(s: CycleState)
    requires CycleValid(s) && s.line != [] && |s.nextLine| != Width
    ensures |CycleAdvance(s).written| == Width
  {
  }

  /** A queued line of exactly 20 bytes: the first call past the gate after the set
      copies it verbatim, adopts it and clears `changed`, without marking the renderer as
      rendered; later calls write nothing until the next set. */
  lemma CycleSnap(s: CycleState)
    requires CycleValid(s) && |s.nextLine| == Width && s.changed
    ensures CycleAdvance(s).written == s.nextLine
    ensures CycleAdvance(s).state.line == s.nextLine && !CycleAdvance(s).state.changed
    ensures CycleAdvance(s).state.rendered == s.rendered
    ensures CycleAdvance(CycleAdvance(s).state).written == []
    ensures CycleAdvance(CycleAdvance(s).state).state == CycleAdvance(s).state
  {
  }

  /** n calls past the gate in a row. */
  function CycleAdvances(s: CycleState, n: nat): (r: CycleState)
    requires CycleValid(s)
    ensures CycleValid(r)
    decreases n
  {
    if n == 0 then s else CycleAdvances(CycleAdvance(s).state, n - 1)
  }

  lemma {:induction false} CycleAdvancesAdd(s: CycleState, a: nat, b: nat)
    requires CycleValid(s)
    ensures CycleAdvances(s, a + b) == CycleAdvances(CycleAdvances(s, a), b)
    decreases a
  {
    if a > 0 {
      CycleAdvancesAdd(CycleAdvance(s).state, a - 1, b);
    }
  }

  /** Going forward, each call shows the window at `pos` and moves it one byte on,
      while there is text beyond the window. */
  lemma {:induction false} CycleForward(s: CycleState, n: nat)
    requires CycleValid(s) && s.slideLeft && |s.nextLine| != Width
    requires s.pos + n + Width <= |s.line|
    ensures CycleAdvances(s, n) == s.(pos := s.pos + n, counter := CycleAdvances(s, n).counter,
                                      rendered := CycleAdvances(s, n).rendered)
    ensures CycleWindow(CycleAdvances(s, n)) == s.line[s.pos + n..s.pos + n + Width]
    decreases n
  {
    if n > 0 {
      var t := CycleAdvance(s).state;
      assert t == s.(pos := s.pos + 1, counter := 0, rendered := true);
      CycleForward(t, n - 1);
    }
  }

  /** Going back, each call moves the window one byte back; on reaching 0 the direction
      turns forward and the queued line is taken up. */
  lemma {:induction false} CycleBackward(s: CycleState, n: nat)
    requires CycleValid(s) && !s.slideLeft && |s.nextLine| != Width
    requires 0 < n <= s.pos
    ensures n < s.pos ==> CycleAdvances(s, n) == s.(pos := s.pos - n, counter := CycleAdvances(s, n).counter,
                                                   rendered := CycleAdvances(s, n).rendered)
    ensures n == s.pos ==> (CycleAdvances(s, n).pos == 0 && CycleAdvances(s, n).slideLeft
                            && CycleAdvances(s, n).line == s.nextLine)
    decreases n
  {
    var t := CycleAdvance(s).state;
    if n > 1 {
      assert t == s.(pos := s.pos - 1, counter := 0, rendered := true);
      CycleBackward(t, n - 1);
    }
  }

  /** A full bounce: a line of L > 20 bytes, started at 0 going forward, is shown at
      0, 1, ..., L - 20, then again at L - 20, ..., 1, after which the marquee is back at
      0 going forward on the queued line: 2L - 39 calls in all. */
  lemma CycleRoundTrip(s: CycleState)
    requires CycleValid(s) && s.slideLeft && s.pos == 0 && |s.line| > Width && |s.nextLine| != Width
    ensures var L := |s.line|;
      var t := CycleAdvances(s, 2 * L - 39);
      t.pos == 0 && t.slideLeft && t.line == s.nextLine
  {
    var L := |s.line|;
    CycleForward(s, L - Width);
    var u := CycleAdvances(s, L - Width);
    var v := CycleAdvance(u).state;
    assert v.pos == L - Width && !v.slideLeft && v.line == s.line;
    assert CycleAdvances(u, 1) == v;
    CycleBackward(v, L - Width);
    CycleAdvancesAdd(s, L - Width, 1);
    CycleAdvancesAdd(s, L - Width + 1, L - Width);
  }

  /** A 20-byte line followed by a longer queued line: one call shows the old line and
      turns, the next takes up the queued line at 0 going forward. */
  lemma CycleFitsThenLong(s: CycleState)
    requires CycleValid(s) && s.slideLeft && s.pos == 0 && |s.line| == Width && |s.nextLine| > Width
    ensures CycleAdvance(s).written == s.line
    ensures var t := CycleAdvances(s, 2); t.pos == 0 && t.slideLeft && t.line == s.nextLine
  {
    var t1 := CycleAdvance(s).state;
    assert !t1.slideLeft && t1.pos == 0;
    var t2 := CycleAdvance(t1).state;
    assert t2.pos == 0 && t2.slideLeft && t2.line == s.nextLine;
    assert CycleAdvances(t1, 1) == CycleAdvances(t2, 0) == t2;
    assert CycleAdvances(s, 2) == CycleAdvances(t1, 1);
  }

  /** n calls of `NextRender`. */
  function CycleRenders(s: CycleState, n: nat): (r: CycleState)
    requires CycleValid(s)
    ensures CycleValid(r)
    decreases n
  {
    if n == 0 then s else CycleRenders(CycleRender(s).state, n - 1)
  }

  lemma {:induction false} CycleRendersStep(s: CycleState, n: nat)
    requires CycleValid(s)
    ensures CycleRenders(s, n + 1) == CycleRender(CycleRenders(s, n)).state
    decreases n
  {
    if n > 0 {
      CycleRendersStep(CycleRender(s).state, n - 1);
    }
  }

  /** The cycle marquee has the same cadence: right after a visible render the next
      `rate` calls only count, and the call after them advances. */
  lemma {:induction false} CycleCadence(s: CycleState, k: nat)
    requires CycleValid(s) && s.rendered && s.counter == 0
    requires k <= s.rate
    ensures CycleRenders(s, k) == s.(counter := k)
    ensures k < s.rate ==> CycleRender(CycleRenders(s, k)).written == []
    ensures k == s.rate ==> CycleRender(CycleRenders(s, k)) == CycleAdvance(s.(counter := k))
  {
    if k > 0 {
      CycleCadence(s, k - 1);
      CycleRendersStep(s, k - 1);
    }
  }

  // ---------------------------------------------------------------------------
  // A renderer of any of the three kinds (the NoWrapOverflowStyle interface).

  datatype LineState =
    | Trim(trim: TrimState)
    | Endless(endless: EndlessState)
    | Cycle(cycle: CycleState)

  predicate LineValid(l: LineState) {
    match l
    case Trim(t) => TrimValid(t)
    case Endless(e) => EndlessValid(e)
    case Cycle(c) => CycleValid(c)
  }

  /** The endless marquee must have been given a line before it renders. */
  predicate Ready(l: LineState) {
    l.Endless? ==> l.endless.line != []
  }

  /** The renderer a parsed style selects, in its zero state with the parsed rate. */
  function InitLine(kind: Styles.StyleKind): (l: LineState)
    ensures LineValid(l)
  {
    match kind
    case TrimStyle => Trim(TrimInit)
    case EndlessStyle(rate) => Endless(EndlessInit(rate))
    case CycleStyle(rate) => Cycle(CycleInit(rate))
  }

  function LineSet(l: LineState, text: seq<Rune>): (r: LineState)
    requires LineValid(l)
    ensures LineValid(r) && Ready(r)
  {
    match l
    case Trim(t) => Trim(TrimSet(t, text))
    case Endless(e) => Endless(EndlessSet(e, text))
    case Cycle(c) => Cycle(CycleSet(c, text))
  }

  function LineRender(l: LineState): (r: Step<LineState>)
    requires LineValid(l) && Ready(l)
    ensures LineValid(r.state) && Ready(r.state)
  {
    match l
    case Trim(t) => var r := TrimRender(t); Step(Trim(r.state), r.written)
    case Endless(e) => var r := EndlessRender(e); Step(Endless(r.state), r.written)
    case Cycle(c) => var r := CycleRender(c); Step(Cycle(r.state), r.written)
  }

  /** Every render of a set line writes at most one window: never more than 20 bytes. */
  lemma LineRenderWidth(l: LineState)
    requires LineValid(l) && Ready(l)
    ensures |LineRender(l).written| <= Width
  {
  }
}
