/** `Second.String` of internal/humanreadable/duration.go: a duration in nanoseconds
    written as days, hours, minutes and seconds, e.g. "1d2h3m4s", leaving out every
    part that is zero. */
module Duration {
  import opened Wrappers
  import opened Decimal
  import opened GoInt

  const NanosPerSecond: int := 1_000_000_000

  /** Whole seconds: Go's division truncates toward zero. */
  function Seconds(ns: int): (s: int)
    ensures ns >= 0 ==> 0 <= s && s * NanosPerSecond <= ns < (s + 1) * NanosPerSecond
    ensures ns < 0 ==> s <= 0
  {
    Quot(ns, NanosPerSecond)
  }

  /** `Second.String`: whole seconds, then the formatting below. */
  function String(ns: int): string {
    Format(Seconds(ns))
  }

  /** The formatting of `Second.String`, branch for branch: seconds, and under
      `tm > 0` the minutes with the hours and days above them. */
  function Format(sec: int): string {
    var tm := Quot(sec, 60);
    var ts := Rem(sec, 60);
    var s := if ts > 0 then Itoa(ts) + "s" else "";
    (if tm > 0 then Minutes(tm) else "") + s
  }

  /** The `tm > 0` branch; under `th > 0` the hours and days. */
  function Minutes(tm: int): string {
    var th := Quot(tm, 60);
    var m := Rem(tm, 60);
    var ms := if m > 0 then Itoa(m) + "m" else "";
    (if th > 0 then Hours(th) else "") + ms
  }

  /** The `th > 0` branch. */
  function Hours(th: int): string {
    var td := Quot(th, 24);
    var h := Rem(th, 24);
    var hs := if h > 0 then Itoa(h) + "h" else "";
    var ds := if td > 0 then Itoa(td) + "d" else "";
    ds + hs
  }

  /** A duration split into its printed parts. */
  datatype Parts = Parts(days: nat, hours: nat, minutes: nat, seconds: nat)

  function Total(p: Parts): nat {
    86400 * p.days + 3600 * p.hours + 60 * p.minutes + p.seconds
  }

  /** The parts of S seconds as the source computes them. */
  function Decompose(S: nat): (p: Parts)
    ensures p.hours < 24 && p.minutes < 60 && p.seconds < 60
  {
    var tm, ts := S / 60, S % 60;
    var th, tm' := tm / 60, tm % 60;
    var td, th' := th / 24, th % 24;
    Parts(td, th', tm', ts)
  }

  /** The parts add up to the seconds they were taken from. */
  lemma DecomposeTotal(S: nat)
    ensures Total(Decompose(S)) == S
  {
    var p := Decompose(S);
    var tm, th := S / 60, S / 60 / 60;
    assert S == 60 * tm + p.seconds;
    assert tm == 60 * th + p.minutes;
    assert th == 24 * p.days + p.hours;
    calc {
      Total(p);
      3600 * (24 * p.days + p.hours) + 60 * p.minutes + p.seconds;
      60 * (60 * th + p.minutes) + p.seconds;
      S;
    }
  }

  /** The parts are unique: any split with hours below 24 and minutes and seconds
      below 60 that adds up to S is the one Decompose gives. */
  lemma DecomposeUnique(p: Parts)
    requires p.hours < 24 && p.minutes < 60 && p.seconds < 60
    ensures Decompose(Total(p)) == p
  {
    var S := Total(p);
    var tm := 1440 * p.days + 60 * p.hours + p.minutes;
    assert S == 60 * tm + p.seconds;
    assert S / 60 == tm && S % 60 == p.seconds;
    var th := 24 * p.days + p.hours;
    assert tm == 60 * th + p.minutes;
    assert tm / 60 == th && tm % 60 == p.minutes;
    assert th / 24 == p.days && th % 24 == p.hours;
  }

  /** One part: its number and unit letter, or nothing when it is zero. */
  function Part(n: nat, unit: char): string {
    if n > 0 then Itoa(n) + [unit] else ""
  }

  function Render(p: Parts): string {
    Part(p.days, 'd') + Part(p.hours, 'h') + Part(p.minutes, 'm') + Part(p.seconds, 's')
  }

  /** The output is the parts of the whole seconds in the order d, h, m, s, each only
      when positive; a duration below one second, negative ones included, gives "". */
  lemma StringParts(ns: int)
    ensures Seconds(ns) >= 0 ==> String(ns) == Render(Decompose(Seconds(ns)))
    ensures Seconds(ns) <= 0 ==> String(ns) == ""
  {
    var sec := Seconds(ns);
    if sec >= 0 {
      FormatParts(sec);
    } else {
      assert Quot(sec, 60) <= 0 && Rem(sec, 60) <= 0;
    }
  }

  lemma FormatParts(S: nat)
    ensures Format(S) == Render(Decompose(S))
  {
    FormatSplit(S);
    var tm := S / 60;
    if tm > 0 {
      MinutesParts(tm);
    } else {
      assert tm / 60 / 24 == 0 && tm / 60 % 24 == 0 && tm % 60 == 0;
    }
  }

  lemma FormatSplit(S: nat)
    ensures Format(S) == (if S / 60 > 0 then Minutes(S / 60) else "") + Part(S % 60, 's')
    ensures Decompose(S) == Parts(S / 60 / 60 / 24, S / 60 / 60 % 24, S / 60 % 60, S % 60)
  {
    assert Quot(S, 60) == S / 60 && Rem(S, 60) == S % 60;
  }

  lemma MinutesParts(tm: nat)
    ensures Minutes(tm) == Part(tm / 60 / 24, 'd') + Part(tm / 60 % 24, 'h') + Part(tm % 60, 'm')
  {
    assert Quot(tm, 60) == tm / 60 && Rem(tm, 60) == tm % 60;
    if tm / 60 > 0 {
      HoursParts(tm / 60);
    } else {
      assert tm / 60 / 24 == 0 && tm / 60 % 24 == 0;
    }
  }

  lemma HoursParts(th: nat)
    ensures Hours(th) == Part(th / 24, 'd') + Part(th % 24, 'h')
  {
    assert Quot(th, 24) == th / 24 && Rem(th, 24) == th % 24;
  }

  /** Empty output means exactly: less than one second. */
  lemma StringEmpty(ns: int)
    ensures String(ns) == "" <==> ns < NanosPerSecond
  {
    StringParts(ns);
    var S := Seconds(ns);
    if S > 0 {
      var p := Decompose(S);
      assert p.days > 0 || p.hours > 0 || p.minutes > 0 || p.seconds > 0;
    }
  }

  // ---------------------------------------------------------------------------
  // Reading the output back

  /** The number of leading decimal digits. */
  function LeadingDigits(s: string): (n: nat)
    ensures n <= |s| && AllDigits(s[..n]) && (n < |s| ==> !IsDigit(s[n]))
  {
    if s == [] || !IsDigit(s[0]) then 0
    else
      var n := LeadingDigits(s[1..]);
      assert s[..n + 1] == [s[0]] + s[1..][..n];
      n + 1
  }

  /** Takes "<digits><unit>" off the front when it is there; otherwise the part is 0. */
  function TakeUnit(s: string, unit: char): (nat, string) {
    var n := LeadingDigits(s);
    if 0 < n < |s| && s[n] == unit then (Value(s[..n]), s[n + 1..]) else (0, s)
  }

  /** Reads a rendered duration: optional parts in the order d, h, m, s. */
  function Parse(s: string): Option<Parts> {
    var (d, s1) := TakeUnit(s, 'd');
    var (h, s2) := TakeUnit(s1, 'h');
    var (m, s3) := TakeUnit(s2, 'm');
    var (sec, s4) := TakeUnit(s3, 's');
    if s4 == [] then Some(Parts(d, h, m, sec)) else None
  }

  lemma {:induction false} LeadingDigitsAppend(x: string, y: string)
    requires AllDigits(x)
    ensures LeadingDigits(x + y) == |x| + LeadingDigits(y)
    decreases |x|
  {
    if x != [] {
      assert (x + y)[1..] == x[1..] + y;
      LeadingDigitsAppend(x[1..], y);
    } else {
      assert x + y == y;
    }
  }

  /** The digit run of a rendered part ends at its unit letter. */
  lemma PartDigits(n: nat, unit: char, tail: string)
    requires n > 0 && !IsDigit(unit)
    ensures LeadingDigits(Part(n, unit) + tail) == |Itoa(n)|
    ensures (Part(n, unit) + tail)[|Itoa(n)|] == unit
  {
    assert Part(n, unit) + tail == Itoa(n) + ([unit] + tail);
    LeadingDigitsAppend(Itoa(n), [unit] + tail);
  }

  /** `tail` does not start with a part in `unit`. */
  predicate NoLeading(tail: string, unit: char) {
    var n := LeadingDigits(tail);
    !(0 < n < |tail| && tail[n] == unit)
  }

  lemma TakePart(n: nat, unit: char, tail: string)
    requires !IsDigit(unit) && NoLeading(tail, unit)
    ensures TakeUnit(Part(n, unit) + tail, unit) == (n, tail)
  {
    if n > 0 {
      var s := Part(n, unit) + tail;
      PartDigits(n, unit, tail);
      assert s[..|Itoa(n)|] == Itoa(n);
      assert s[|Itoa(n)| + 1..] == tail;
      ValueDigits(n);
    } else {
      assert Part(n, unit) + tail == tail;
    }
  }

  lemma SkipPart(n: nat, other: char, tail: string, unit: char)
    requires !IsDigit(other) && other != unit && NoLeading(tail, unit)
    ensures NoLeading(Part(n, other) + tail, unit)
  {
    if n > 0 {
      PartDigits(n, other, tail);
    } else {
      assert Part(n, other) + tail == tail;
    }
  }

  /** Parse reads back every rendering. */
  lemma ParseRender(p: Parts)
    ensures Parse(Render(p)) == Some(p)
  {
    var r4 := Part(p.seconds, 's');
    var r3 := Part(p.minutes, 'm') + r4;
    var r2 := Part(p.hours, 'h') + r3;
    Regroup(Part(p.days, 'd'), Part(p.hours, 'h'), Part(p.minutes, 'm'), r4);
    assert NoLeading([], 's');
    assert r4 == r4 + [];
    TakePart(p.seconds, 's', []);
    SkipPart(p.seconds, 's', [], 'm');
    TakePart(p.minutes, 'm', r4);
    SkipPart(p.minutes, 'm', r4, 'h');
    SkipPart(p.seconds, 's', [], 'h');
    TakePart(p.hours, 'h', r3);
    SkipPart(p.hours, 'h', r3, 'd');
    SkipPart(p.minutes, 'm', r4, 'd');
    SkipPart(p.seconds, 's', [], 'd');
    TakePart(p.days, 'd', r2);
    ParseSteps(Render(p), r2, r3, r4, p);
  }

  lemma Regroup(a: string, b: string, c: string, d: string)
    ensures a + b + c + d == a + (b + (c + d))
  {
  }

  /** Parse reads the four parts in turn. */
  lemma ParseSteps(s: string, s1: string, s2: string, s3: string, p: Parts)
    requires TakeUnit(s, 'd') == (p.days, s1) && TakeUnit(s1, 'h') == (p.hours, s2)
    requires TakeUnit(s2, 'm') == (p.minutes, s3) && TakeUnit(s3, 's') == (p.seconds, [])
    ensures Parse(s) == Some(p)
  {
  }

  /** Round trip: for a duration of S >= 0 whole seconds the output reads back as days,
      hours, minutes and seconds (absent parts as 0) with 86400d + 3600h + 60m + s = S,
      hours below 24 and minutes and seconds below 60. */
  lemma RoundTrip(ns: int)
    requires Seconds(ns) >= 0
    ensures Parse(String(ns)).Some?
    ensures var p := Parse(String(ns)).value;
      Total(p) == Seconds(ns) && p.hours < 24 && p.minutes < 60 && p.seconds < 60
  {
    StringParts(ns);
    ParseRender(Decompose(Seconds(ns)));
    DecomposeTotal(Seconds(ns));
  }

  /** An hour prints as "1h". */
  lemma ExampleHour(ns: int)
    requires ns == 3600 * NanosPerSecond
    ensures String(ns) == "1h"
  {
    var p := Parts(0, 1, 0, 0);
    assert Total(p) == 3600;
    WholeSeconds(Total(p));
    StringParts(ns);
    DecomposeUnique(p);
    assert String(ns) == Render(p);
    HourText();
  }

  lemma HourText()
    ensures Render(Parts(0, 1, 0, 0)) == "1h"
  {
    PartOne('h');
    var z := Part(0, 'd');
    assert z == [] && Part(0, 'm') == [] && Part(0, 's') == [];
    assert Render(Parts(0, 1, 0, 0)) == z + ['1', 'h'] + z + z;
  }

  /** 90061 seconds print as "1d1h1m1s". */
  lemma ExampleAllParts(ns: int)
    requires ns == 90061 * NanosPerSecond
    ensures String(ns) == "1d1h1m1s"
  {
    var p := Parts(1, 1, 1, 1);
    WholeSeconds(Total(p));
    StringParts(ns);
    DecomposeUnique(p);
    assert String(ns) == Render(p);
    AllPartsText();
  }

  lemma AllPartsText()
    ensures Render(Parts(1, 1, 1, 1)) == "1d1h1m1s"
  {
    PartOne('d');
    PartOne('h');
    PartOne('m');
    PartOne('s');
  }

  lemma PartOne(unit: char)
    ensures Part(1, unit) == ['1', unit]
  {
    assert Itoa(1) == "1";
  }

  lemma WholeSeconds(S: nat)
    ensures Seconds(S * NanosPerSecond) == S
  {
  }
}
