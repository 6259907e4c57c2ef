/** The older display engine of cmd/szb/main.go (lines 27-296): the same frame layout,
    but a parser that knows no rates, renderers without the cadence gate and without
    the glyph map, a cycle marquee that always moves forward one byte, and a wrapping
    strategy that pads its line again on every render. Lines are stored as the UTF-8 of
    the padded text. */
module Legacy {
  import opened Utf8
  import opened Wrappers
  import opened Window
  import opened Styles
  import Lines
  import Frame

  // ---------------------------------------------------------------------------
  // Style flag

  datatype LegacyKind = LTrim | LEndless | LCycle

  /** The old parser accepts a field only when it is exactly one of the three names. */
  function ParseLegacyField(field: string, idx: nat): (r: Result<LegacyKind, StyleError>)
    ensures r.Ok? <==> field in {"t", "em", "cm"}
    ensures r.Err? ==> r.error == ErrInvalidStyleForLine(idx)
  {
    if field == "t" then Ok(LTrim)
    else if field == "em" then Ok(LEndless)
    else if field == "cm" then Ok(LCycle)
    else Err(ErrInvalidStyleForLine(idx))
  }

  function ParseLegacyFields(fields: seq<string>, n: nat): Result<seq<LegacyKind>, StyleError>
    requires n <= |fields|
  {
    if n == 0 then Ok([])
    else match ParseLegacyFields(fields, n - 1)
      case Err(e) => Err(e)
      case Ok(kinds) =>
        match ParseLegacyField(fields[n - 1], n - 1)
        case Err(e) => Err(e)
        case Ok(k) => Ok(kinds + [k])
  }

  function ParseLegacy(flag: string): Result<seq<LegacyKind>, StyleError> {
    var fields := Split(flag, ',');
    if |fields| != 4 then Err(ErrInvalidOverflowStyle) else ParseLegacyFields(fields, 4)
  }

  /** The first n fields parse exactly when each is one of the three names, and then
      give their kinds in order; otherwise the first other field is named by its index. */
  lemma {:induction false} ParseLegacyFieldsExact(fields: seq<string>, n: nat)
    requires n <= |fields|
    ensures ParseLegacyFields(fields, n).Ok? <==> forall i :: 0 <= i < n ==> fields[i] in {"t", "em", "cm"}
    ensures ParseLegacyFields(fields, n).Ok? ==>
      |ParseLegacyFields(fields, n).value| == n &&
      forall i :: 0 <= i < n ==> ParseLegacyFields(fields, n).value[i] == ParseLegacyField(fields[i], i).value
    ensures ParseLegacyFields(fields, n).Err? ==>
      exists i :: 0 <= i < n && ParseLegacyFields(fields, n).error == ErrInvalidStyleForLine(i)
               && fields[i] !in {"t", "em", "cm"}
               && forall j :: 0 <= j < i ==> fields[j] in {"t", "em", "cm"}
  {
    if n > 0 {
      ParseLegacyFieldsExact(fields, n - 1);
    }
  }

  /** The old flag is accepted exactly when it has four fields, each "t", "em" or "cm";
      a wrong field count is ErrInvalidOverflowStyle, and otherwise the first other field
      is reported by its 0-based index. */
  lemma ParseLegacyExact(flag: string)
    ensures |Split(flag, ',')| != 4 ==> ParseLegacy(flag) == Err(ErrInvalidOverflowStyle)
    ensures ParseLegacy(flag).Ok? <==>
      |Split(flag, ',')| == 4 && forall i :: 0 <= i < 4 ==> Split(flag, ',')[i] in {"t", "em", "cm"}
    ensures forall k :: 0 <= k < 4 && ParseLegacy(flag) == Err(ErrInvalidStyleForLine(k)) ==>
      Split(flag, ',')[k] !in {"t", "em", "cm"} && forall j :: 0 <= j < k ==> Split(flag, ',')[j] in {"t", "em", "cm"}
  {
    var fields := Split(flag, ',');
    if |fields| == 4 {
      ParseLegacyFieldsExact(fields, 4);
    }
  }

  /** The loop of the old `TryParseCustomStyle`. */
  method TryParseLegacyStyle(flag: string) returns (r: Result<seq<LegacyKind>, StyleError>)
    ensures r == ParseLegacy(flag)
  {
    var flags := Split(flag, ',');
    if |flags| != 4 {
      return Err(ErrInvalidOverflowStyle);
    }
    var line: seq<LegacyKind> := [];
    for idx := 0 to 4
      invariant ParseLegacyFields(flags, idx) == Ok(line)
    {
      var f := flags[idx];
      if f == "t" {
        line := line + [LTrim];
      } else if f == "em" {
        line := line + [LEndless];
      } else if f == "cm" {
        line := line + [LCycle];
      } else {
        LegacyFailureSticks(flags, idx + 1, 4);
        return Err(ErrInvalidStyleForLine(idx));
      }
    }
    return Ok(line);
  }

  lemma {:induction false} LegacyFailureSticks(fields: seq<string>, n: nat, m: nat)
    requires n <= m <= |fields|
    requires ParseLegacyFields(fields, n).Err?
    ensures ParseLegacyFields(fields, m) == ParseLegacyFields(fields, n)
    decreases m - n
  {
    if n < m {
      LegacyFailureSticks(fields, n, m - 1);
    }
  }

  /** The style the newer parser gives the same field: the old marquees rendered on
      every call, which is rate 1 only in name (see LegacyAccepted). */
  function Upgrade(k: LegacyKind): StyleKind {
    match k
    case LTrim => TrimStyle
    case LEndless => EndlessStyle(1)
    case LCycle => CycleStyle(1)
  }

  /** Every flag the old parser accepts, the new one accepts too, with rate 1 for both
      marquees; and both refuse a flag without four fields the same way. */
  lemma LegacyAccepted(flag: string)
    ensures ParseLegacy(flag).Ok? ==>
      && |ParseLegacy(flag).value| == 4
      && ParseStyles(flag).Ok? && |ParseStyles(flag).value| == 4
      && forall i :: 0 <= i < 4 ==> ParseStyles(flag).value[i] == Upgrade(ParseLegacy(flag).value[i])
    ensures ParseLegacy(flag) == Err(ErrInvalidOverflowStyle) <==> ParseStyles(flag) == Err(ErrInvalidOverflowStyle)
  {
    if ParseLegacy(flag).Ok? {
      LegacyAcceptedOk(flag);
    }
    SameFieldCount(flag);
  }

  lemma LegacyAcceptedOk(flag: string)
    requires ParseLegacy(flag).Ok?
    ensures |ParseLegacy(flag).value| == 4
    ensures ParseStyles(flag).Ok? && |ParseStyles(flag).value| == 4
    ensures forall i :: 0 <= i < 4 ==> ParseStyles(flag).value[i] == Upgrade(ParseLegacy(flag).value[i])
  {
    var fields := Split(flag, ',');
    ParseLegacyExact(flag);
    ParseStylesExact(flag);
    ParseLegacyFieldsExact(fields, 4);
    ParseFieldsExact(fields, 4);
    forall i | 0 <= i < 4 ensures ParseField(fields[i], i) == Ok(Upgrade(ParseLegacyField(fields[i], i).value)) {
      NoColon(fields[i]);
    }
  }

  /** Both parsers refuse a flag as a whole exactly when it does not have four fields. */
  lemma SameFieldCount(flag: string)
    ensures ParseLegacy(flag) == Err(ErrInvalidOverflowStyle) <==> ParseStyles(flag) == Err(ErrInvalidOverflowStyle)
  {
    var fields := Split(flag, ',');
    ParseLegacyExact(flag);
    ParseStylesExact(flag);
    if |fields| == 4 {
      ParseLegacyFieldsExact(fields, 4);
      ParseFieldsExact(fields, 4);
    }
  }

  lemma NoColon(field: string)
    requires field in {"t", "em", "cm"}
    ensures TryParseIntParam(field) == Ok(1)
  {
    assert Count(field, ':') == 0;
  }

  /** A rate is an error for the old parser: "em:3" on line 1 is refused there, while
      the newer one reads it as rate 3. */
  lemma LegacyRefusesRate()
    ensures ParseLegacy("t,em:3,cm,t") == Err(ErrInvalidStyleForLine(1))
    ensures ParseStyles("t,em:3,cm,t") == Ok([TrimStyle, EndlessStyle(3), CycleStyle(1), TrimStyle])
  {
    var fields := ["t", "em:3", "cm", "t"];
    SplitJoin(fields, ',');
    assert Join(fields, ',') == "t,em:3,cm,t";
    OldRefuses(fields);
    NewAccepts(fields);
  }

  lemma OldRefuses(fields: seq<string>)
    requires fields == ["t", "em:3", "cm", "t"]
    ensures ParseLegacyFields(fields, 4) == Err(ErrInvalidStyleForLine(1))
  {
    ParseLegacyFieldsExact(fields, 1);
    assert ParseLegacyFields(fields, 2) == Err(ErrInvalidStyleForLine(1));
    LegacyFailureSticks(fields, 2, 4);
  }

  lemma NewAccepts(fields: seq<string>)
    requires fields == ["t", "em:3", "cm", "t"]
    ensures ParseFields(fields, 4) == Ok([TrimStyle, EndlessStyle(3), CycleStyle(1), TrimStyle])
  {
    ExampleRate();
    assert TryParseIntParam("em:3") == Ok(3);
    NoColon("cm");
    assert HasPrefix("em:3", "em") && HasPrefix("cm", "cm");
    assert ParseField(fields[1], 1) == Ok(EndlessStyle(3));
    assert ParseField(fields[2], 2) == Ok(CycleStyle(1));
    ParseFieldsExact(fields, 4);
    var v := ParseFields(fields, 4).value;
    assert v == [TrimStyle, EndlessStyle(3), CycleStyle(1), TrimStyle];
  }

  // ---------------------------------------------------------------------------
  // Renderers

  /** A line padded to `width` code points, as UTF-8: `fmt.Sprintf("%-20s", …)`. */
  function Padded(text: seq<Rune>, width: nat): (r: seq<Byte>)
    ensures |r| >= width
  {
    Encode(PadRight(text, width))
  }

  /** Trim: the same state and render as the newer one; only the stored line differs. */
  function LegacyTrimSet(s: Lines.TrimState, text: seq<Rune>): (r: Lines.TrimState)
    ensures Lines.TrimValid(r) && r.changed
  {
    Lines.TrimState(Padded(text, Width), true)
  }

  /** For text below 0x80 the old and new trim store the same line. */
  lemma LegacyTrimAscii(s: Lines.TrimState, text: seq<Rune>)
    requires forall i :: 0 <= i < |text| ==> text[i] < 0x80
    ensures LegacyTrimSet(s, text) == Lines.TrimSet(s, text)
  {
    Lines.FormattedAscii(text, Width);
    var p := PadRight(text, Width);
    forall i | 0 <= i < |p| ensures p[i] < 0x80 {
      if i < |text| {
        assert p[..|text|][i] == text[i];
      }
    }
    EncodeAscii(p);
  }

  /** The old endless marquee keeps only the two lines and the position. */
  datatype LegacyEndless = LegacyEndless(line: seq<Byte>, nextLine: seq<Byte>, pos: int)

  predicate LegacyEndlessValid(s: LegacyEndless) {
    && (s.line == [] ==> s.nextLine == [] && s.pos == 0)
    && (s.line != [] ==> |s.line| >= Width && |s.nextLine| >= Width && 0 <= s.pos < |s.line|)
  }

  function LegacyEndlessSet(s: LegacyEndless, text: seq<Rune>): (r: LegacyEndless)
    requires LegacyEndlessValid(s)
    ensures LegacyEndlessValid(r) && r.line != []
  {
    var next := Padded(Lines.EndlessText(text), Width);
    if s.line == [] then LegacyEndless(next, next, 0) else s.(nextLine := next)
  }

  /** Every call renders: 20 bytes from `pos`, continued by the queued line, then one
      byte on, taking up the queued line at the end of the current one. */
  function LegacyEndlessRender(s: LegacyEndless): (r: Lines.Step<LegacyEndless>)
    requires LegacyEndlessValid(s) && s.line != []
    ensures LegacyEndlessValid(r.state) && r.state.line != []
    ensures r.written == (s.line + s.nextLine)[s.pos..s.pos + Width]
  {
    var endPos := s.pos + Width;
    var shown :=
      if endPos >= |s.line| then s.line[s.pos..] + s.nextLine[..Width - (|s.line| - s.pos)]
      else s.line[s.pos..endPos];
    var pos := s.pos + 1;
    var next := if pos == |s.line| then LegacyEndless(s.nextLine, s.nextLine, 0) else s.(pos := pos);
    Lines.Step(next, shown)
  }

  /** The newer endless marquee state that behaves like an old one: rendered, never
      waiting. */
  function Lift(s: LegacyEndless): Lines.EndlessState {
    Lines.EndlessState(s.line, s.nextLine, s.pos, 0, 0, s.line != [])
  }

  /** The old marquee is the new one with rate 0: same windows and same moves. */
  lemma LegacyEndlessIsRateZero(s: LegacyEndless)
    requires LegacyEndlessValid(s) && s.line != []
    ensures Lines.EndlessValid(Lift(s))
    ensures Lines.EndlessRender(Lift(s)).written == LegacyEndlessRender(s).written
    ensures Lines.EndlessRender(Lift(s)).state == Lift(LegacyEndlessRender(s).state)
  {
  }

  /** The old cycle marquee. */
  datatype LegacyCycle = LegacyCycle(slideLeft: bool, line: seq<Byte>, nextLine: seq<Byte>, pos: int, changed: bool)

  const LegacyCycleInit: LegacyCycle := LegacyCycle(false, [], [], 0, false)

  function LegacyCycleSet(s: LegacyCycle, text: seq<Rune>): (r: LegacyCycle)
    ensures r.changed && r.line != [] && r.nextLine == Padded(text, Width)
  {
    var next := Padded(text, Width);
    if s.line == [] then LegacyCycle(true, next, next, 0, true) else s.(nextLine := next, changed := true)
  }

  datatype Outcome = Panic | Next(step: Lines.Step<LegacyCycle>)

  /** One call as the source writes it. The snap adopts a changed 20-byte line but keeps
      `pos` and the direction; the forward step always moves `pos` on and turns once the
      window reaches the end; `line[pos:endPos]` panics unless 0 <= pos <= |line|. */
  function LegacyCycleAsWritten(s: LegacyCycle): (r: Outcome)
    ensures r.Panic? <==> !(s.changed && |s.nextLine| == Width) && (s.pos < 0 || s.pos > |s.line|)
  {
    if s.changed && |s.nextLine| == Width then
      Next(Lines.Step(s.(line := s.nextLine, changed := false), s.nextLine[..Width]))
    else
      var endPos := Min(s.pos + Width, |s.line|);
      if s.pos < 0 || s.pos > endPos then Panic
      else
        var shown := s.line[s.pos..endPos];
        if s.slideLeft then Next(Lines.Step(s.(pos := s.pos + 1, slideLeft := endPos < |s.line|), shown))
        else
          var pos := s.pos - 1;
          Next(Lines.Step(s.(pos := pos, slideLeft := pos == 0, line := if pos == 0 then s.nextLine else s.line), shown))
  }

  /** Once a line is set: going forward, a whole window lies inside the line; going
      back, `pos` is at least 1 and the window starts inside the line. */
  predicate LegacyCycleValid(s: LegacyCycle) {
    && |s.line| >= Width && |s.nextLine| >= Width
    && (s.slideLeft ==> 0 <= s.pos && s.pos + Width <= |s.line|)
    && (!s.slideLeft ==> 1 <= s.pos <= |s.line| - Width + 1)
  }

  lemma LegacyCycleSetValid(s: LegacyCycle, text: seq<Rune>)
    requires s == LegacyCycleInit || LegacyCycleValid(s)
    ensures LegacyCycleValid(LegacyCycleSet(s, text))
  {
  }

  /** The corrected call: the snap also starts the new line at 0 going forward. */
  function LegacyCycleRender(s: LegacyCycle): (r: Lines.Step<LegacyCycle>)
    requires LegacyCycleValid(s)
    ensures LegacyCycleValid(r.state)
    ensures 19 <= |r.written| <= Width
  {
    if s.changed && |s.nextLine| == Width then
      Lines.Step(s.(line := s.nextLine, changed := false, pos := 0, slideLeft := true), s.nextLine[..Width])
    else
      var endPos := Min(s.pos + Width, |s.line|);
      var shown := s.line[s.pos..endPos];
      if s.slideLeft then Lines.Step(s.(pos := s.pos + 1, slideLeft := endPos < |s.line|), shown)
      else
        var pos := s.pos - 1;
        Lines.Step(s.(pos := pos, slideLeft := pos == 0, line := if pos == 0 then s.nextLine else s.line), shown)
  }

  /** The source and the correction agree on every call but the snap, which differs only
      in the position and direction it leaves. */
  lemma LegacyAgrees(s: LegacyCycle)
    requires LegacyCycleValid(s)
    ensures !(s.changed && |s.nextLine| == Width) ==> LegacyCycleAsWritten(s) == Next(LegacyCycleRender(s))
    ensures s.changed && |s.nextLine| == Width ==>
      LegacyCycleAsWritten(s) == Next(LegacyCycleRender(s).(state := LegacyCycleRender(s).state.(pos := s.pos, slideLeft := s.slideLeft)))
  {
  }

  /** A 20-byte line bounces between positions 0 and 1: the render at 1 copies only 19
      bytes, so the last byte of the window keeps whatever was there before. */
  lemma LegacyShortWindow(s: LegacyCycle)
    requires LegacyCycleValid(s) && |s.line| == Width && s.pos == 0 && s.slideLeft
    requires !(s.changed && |s.nextLine| == Width)
    ensures LegacyCycleRender(s).written == s.line
    ensures var t := LegacyCycleRender(s).state;
      t.pos == 1 && !t.slideLeft && LegacyCycleRender(t).written == s.line[1..]
      && LegacyCycleRender(t).state.pos == 0 && LegacyCycleRender(t).state.slideLeft
  {
  }

  /** A longer line of L bytes started at 0 going forward: each call moves one byte on;
      at L - 20 the window reaches the end and the direction turns, with `pos` already at
      L - 19. */
  lemma {:induction false} LegacyForward(s: LegacyCycle, n: nat)
    requires LegacyCycleValid(s) && s.slideLeft && |s.nextLine| != Width
    requires s.pos + n + Width < |s.line|
    ensures LegacyRenders(s, n) == s.(pos := s.pos + n)
    decreases n
  {
    if n > 0 {
      LegacyForward(LegacyCycleRender(s).state, n - 1);
    }
  }

  function LegacyRenders(s: LegacyCycle, n: nat): (r: LegacyCycle)
    requires LegacyCycleValid(s)
    ensures LegacyCycleValid(r)
    decreases n
  {
    if n == 0 then s else LegacyRenders(LegacyCycleRender(s).state, n - 1)
  }

  // ---------------------------------------------------------------------------
  // Sequences of calls on the old cycle marquee

  datatype Event = SetLine(text: seq<Rune>) | Render

  /** The source's marquee driven by calls; None once it has panicked. */
  function LegacyRun(s: LegacyCycle, events: seq<Event>): Option<LegacyCycle>
    decreases |events|
  {
    if events == [] then Some(s)
    else match events[0]
      case SetLine(t) => LegacyRun(LegacyCycleSet(s, t), events[1..])
      case Render =>
        match LegacyCycleAsWritten(s)
        case Panic => None
        case Next(st) => LegacyRun(st.state, events[1..])
  }

  /** The corrected marquee driven by the same calls, once a line is set. */
  function LegacyRunFixed(s: LegacyCycle, events: seq<Event>): (r: LegacyCycle)
    requires LegacyCycleValid(s)
    ensures LegacyCycleValid(r)
    decreases |events|
  {
    if events == [] then s
    else match events[0]
      case SetLine(t) => LegacyRunFixed(LegacyCycleSet(s, t), events[1..])
      case Render => LegacyRunFixed(LegacyCycleRender(s).state, events[1..])
  }

  function Renders(n: nat): (r: seq<Event>)
    ensures |r| == n && forall i :: 0 <= i < n ==> r[i] == Render
  {
    seq(n, _ => Render)
  }

  /** n renders followed by more calls: one render, then the rest. */
  lemma RendersCons(n: nat, rest: seq<Event>)
    ensures n == 0 ==> Renders(n) + rest == rest
    ensures n > 0 ==> Renders(n) + rest == [Render] + (Renders(n - 1) + rest)
  {
    if n > 0 {
      assert (Renders(n) + rest)[1..] == Renders(n - 1) + rest;
    } else {
      assert Renders(n) == [];
    }
  }

  lemma {:induction false} LegacyRunForward(s: LegacyCycle, n: nat, rest: seq<Event>)
    requires LegacyCycleValid(s) && s.slideLeft && |s.nextLine| != Width
    requires s.pos + n + Width < |s.line|
    ensures LegacyRun(s, Renders(n) + rest) == LegacyRun(s.(pos := s.pos + n), rest)
    ensures LegacyRunFixed(s, Renders(n) + rest) == LegacyRunFixed(s.(pos := s.pos + n), rest)
    decreases n
  {
    if n > 0 {
      RendersCons(n, rest);
      LegacyForwardStep(s, Renders(n - 1) + rest);
      LegacyRunForward(s.(pos := s.pos + 1), n - 1, rest);
    } else {
      RendersCons(n, rest);
    }
  }

  /** One forward render, the same in both. */
  lemma LegacyForwardStep(s: LegacyCycle, rest: seq<Event>)
    requires LegacyCycleValid(s) && s.slideLeft && |s.nextLine| != Width
    requires s.pos + 1 + Width < |s.line|
    ensures LegacyRun(s, [Render] + rest) == LegacyRun(s.(pos := s.pos + 1), rest)
    ensures LegacyRunFixed(s, [Render] + rest) == LegacyRunFixed(s.(pos := s.pos + 1), rest)
  {
    var e := [Render] + rest;
    assert e[0] == Render && e[1..] == rest;
    LegacyAgrees(s);
    assert LegacyCycleRender(s).state == s.(pos := s.pos + 1);
  }

  /** The first set of a line of 42 bytes or more, 21 renders, then a 20-byte line: the
      source adopts it at position 21 and the render after that slices `line[21:20]`. */
  lemma LegacyStalePositionPanics(a: seq<Rune>, b: seq<Rune>)
    requires |Padded(a, Width)| == Width && |Padded(b, Width)| >= 42
    ensures LegacyRun(LegacyCycleInit, [SetLine(b)] + Renders(21) + [SetLine(a), Render, Render]) == None
  {
    var tail := [SetLine(a), Render, Render];
    var s1 := LegacyCycleSet(LegacyCycleInit, b);
    LegacyCycleSetValid(LegacyCycleInit, b);
    assert ([SetLine(b)] + Renders(21) + tail)[1..] == Renders(21) + tail;
    LegacyRunForward(s1, 21, tail);
    LegacyTail(s1.(pos := 21), a);
  }

  /** The corrected marquee on the same calls shows the 20-byte line in full. */
  lemma LegacyStalePositionFixed(a: seq<Rune>, b: seq<Rune>)
    requires |Padded(a, Width)| == Width && |Padded(b, Width)| >= 42
    ensures var s1 := LegacyCycleSet(LegacyCycleInit, b);
      LegacyCycleValid(s1) &&
      var s := LegacyRunFixed(s1, Renders(21) + [SetLine(a), Render]);
      s.pos == 0 && s.slideLeft && LegacyCycleRender(s).written == Padded(a, Width)
  {
    var tail := [SetLine(a), Render];
    var s1 := LegacyCycleSet(LegacyCycleInit, b);
    LegacyCycleSetValid(LegacyCycleInit, b);
    LegacyRunForward(s1, 21, tail);
    var s2 := s1.(pos := 21);
    var s3 := LegacyCycleSet(s2, a);
    assert tail[1..] == [Render];
    assert LegacyRunFixed(s1, Renders(21) + tail) == LegacyRunFixed(s1.(pos := 21), tail);
    var s4 := LegacyCycleRender(s3).state;
    assert [Render][1..] == [];
    assert LegacyRunFixed(s3, [Render]) == s4;
  }

  /** The steps after the scroll: set the 20-byte line, snap, render. */
  lemma LegacyTail(s2: LegacyCycle, a: seq<Rune>)
    requires |Padded(a, Width)| == Width && s2.pos == 21 && s2.line != []
    ensures LegacyRun(s2, [SetLine(a), Render, Render]) == None
  {
    var s3 := LegacyCycleSet(s2, a);
    assert [SetLine(a), Render, Render][1..] == [Render, Render];
    var s4 := LegacyCycleAsWritten(s3).step.state;
    assert s4.pos == 21 && |s4.line| == Width && !s4.changed;
    assert [Render, Render][1..] == [Render];
  }

  /** Two renders before any set: the first slices the empty line and moves `pos` back
      to -1, the second panics. */
  lemma LegacyRenderBeforeSet()
    ensures LegacyRun(LegacyCycleInit, [Render, Render]) == None
  {
    assert [Render, Render][1..] == [Render];
  }

  /** Plain ASCII lines show it: "ab" pads to 20 bytes and 42 letters stay 42 bytes. */
  lemma LegacyAsciiInstances()
    ensures |Padded([0x61, 0x62], Width)| == Width
    ensures |Padded(seq(42, _ => 0x61), Width)| == 42
  {
    EncodeAscii(PadRight([0x61, 0x62], Width));
    EncodeAscii(PadRight(seq(42, _ => 0x61), Width));
  }

  // ---------------------------------------------------------------------------
  // One line of the old per-line strategy

  datatype LegacyLine = LTrimS(trim: Lines.TrimState) | LEndlessS(endless: LegacyEndless) | LCycleS(cycle: LegacyCycle)

  predicate LegacyLineValid(l: LegacyLine) {
    match l
    case LTrimS(t) => Lines.TrimValid(t)
    case LEndlessS(e) => LegacyEndlessValid(e)
    case LCycleS(c) => c == LegacyCycleInit || LegacyCycleValid(c)
  }

  /** The marquees must have been given a line before they render. */
  predicate LegacyReady(l: LegacyLine) {
    match l
    case LTrimS(_) => true
    case LEndlessS(e) => e.line != []
    case LCycleS(c) => LegacyCycleValid(c)
  }

  /** The renderer the old parser selects, in its zero state. */
  function LegacyInit(kind: LegacyKind): (l: LegacyLine)
    ensures LegacyLineValid(l) && (LegacyReady(l) <==> kind == LTrim)
  {
    match kind
    case LTrim => LTrimS(Lines.TrimInit)
    case LEndless => LEndlessS(LegacyEndless([], [], 0))
    case LCycle => LCycleS(LegacyCycleInit)
  }

  function LegacyLineSet(l: LegacyLine, text: seq<Rune>): (r: LegacyLine)
    requires LegacyLineValid(l)
    ensures LegacyLineValid(r) && LegacyReady(r)
  {
    match l
    case LTrimS(t) => LTrimS(LegacyTrimSet(t, text))
    case LEndlessS(e) => LEndlessS(LegacyEndlessSet(e, text))
    case LCycleS(c) => LegacyCycleSetValid(c, text); LCycleS(LegacyCycleSet(c, text))
  }

  /** Every render of a set line writes at most one window, and a marquee always writes
      at least 19 bytes of it. */
  function LegacyLineRender(l: LegacyLine): (r: Lines.Step<LegacyLine>)
    requires LegacyLineValid(l) && LegacyReady(l)
    ensures LegacyLineValid(r.state) && LegacyReady(r.state)
    ensures |r.written| <= Width && (!l.LTrimS? ==> |r.written| >= 19)
  {
    match l
    case LTrimS(t) => var r := Lines.TrimRender(t); Lines.Step(LTrimS(r.state), r.written)
    case LEndlessS(e) => var r := LegacyEndlessRender(e); Lines.Step(LEndlessS(r.state), r.written)
    case LCycleS(c) => var r := LegacyCycleRender(c); Lines.Step(LCycleS(r.state), r.written)
  }

  // ---------------------------------------------------------------------------
  // The old wrapping strategy

  /** The line the old wrapping strategy renders from: a line shorter than 80 bytes is
      padded again to 80 code points first, so an unset line becomes 80 spaces. */
  function WrapLine(line: seq<Rune>): (r: seq<Rune>)
    ensures |Encode(r)| >= Frame.FrameSize
    ensures |Encode(line)| >= Frame.FrameSize ==> r == line
  {
    if |Encode(line)| < Frame.FrameSize then PadRight(line, Frame.FrameSize) else line
  }

  /** A set line is never padded again. */
  lemma WrapLineSet(text: seq<Rune>)
    ensures WrapLine(PadRight(text, Frame.FrameSize)) == PadRight(text, Frame.FrameSize)
  {
    assert |Padded(text, Frame.FrameSize)| >= Frame.FrameSize;
  }

  /** Before any set the old wrapping strategy shows 80 spaces. */
  lemma WrapLineBlank()
    ensures Encode(WrapLine([])) == seq(Frame.FrameSize, _ => Space)
  {
    var p := PadRight([], Frame.FrameSize);
    assert forall i :: 0 <= i < |p| ==> p[i] < 0x80;
    EncodeAscii(p);
  }
}
