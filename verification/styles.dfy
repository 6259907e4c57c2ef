/** The overflow-style flag of the display package: a comma-separated list of four
    per-line styles such as `t,em:3,cm,t`, parsed by `TryParseCustomStyle` in
    internal/display/buffer.go. */
module Styles {
  import opened Wrappers
  import opened Decimal

  /** How many times `sep` occurs in `s`. */
  function Count(s: string, sep: char): nat {
    if s == [] then 0 else (if s[0] == sep then 1 else 0) + Count(s[1..], sep)
  }

  /** The fields joined back with the separator between them. */
  function Join(fields: seq<string>, sep: char): string
    requires |fields| >= 1
  {
    if |fields| == 1 then fields[0] else fields[0] + [sep] + Join(fields[1..], sep)
  }

  /** Go's `strings.Split(s, sep)` for a one-byte separator: the text between
      consecutive separators, one more field than there are separators. */
  function Split(s: string, sep: char): (r: seq<string>)
    ensures |r| == Count(s, sep) + 1
    ensures forall i :: 0 <= i < |r| ==> sep !in r[i]
  {
    if s == [] then [""]
    else
      var rest := Split(s[1..], sep);
      if s[0] == sep then [""] + rest
      else [[s[0]] + rest[0]] + rest[1..]
  }

  /** Joining the fields of a split gives back the text. */
  lemma {:induction false} JoinSplit(s: string, sep: char)
    ensures Join(Split(s, sep), sep) == s
  {
    if s != [] {
      var rest := Split(s[1..], sep);
      JoinSplit(s[1..], sep);
      if s[0] == sep {
        assert ([""] + rest)[1..] == rest;
      } else {
        var r := [[s[0]] + rest[0]] + rest[1..];
        if |rest| > 1 {
          assert r[1..] == rest[1..];
          assert Join(rest, sep) == rest[0] + [sep] + Join(rest[1..], sep);
          assert s == [s[0]] + s[1..];
        }
      }
    }
  }

  /** Splitting a join of separator-free fields gives back the fields: Split is the
      unique decomposition of a text around its separators. */
  lemma {:induction false} SplitJoin(fields: seq<string>, sep: char)
    requires |fields| >= 1
    requires forall i :: 0 <= i < |fields| ==> sep !in fields[i]
    ensures Split(Join(fields, sep), sep) == fields
    decreases |fields|, |fields[0]|, 1
  {
    if fields[0] != [] {
      SplitJoinHead(fields, sep);
    } else if |fields| == 1 {
      assert fields == [""];
    } else {
      SplitJoinEmpty(fields, sep);
    }
  }

  /** SplitJoin when the first field is empty: the text starts with a separator. */
  lemma {:induction false} SplitJoinEmpty(fields: seq<string>, sep: char)
    requires |fields| >= 2 && fields[0] == []
    requires forall i :: 0 <= i < |fields| ==> sep !in fields[i]
    ensures Split(Join(fields, sep), sep) == fields
    decreases |fields|, |fields[0]|, 0
  {
    var tail := fields[1..];
    SplitJoin(tail, sep);
    assert Join(fields, sep) == [sep] + Join(tail, sep);
    SplitSep(Join(tail, sep), sep);
    assert fields == [""] + tail;
  }

  /** SplitJoin when the first field is not empty: its first character heads the text. */
  lemma {:induction false} SplitJoinHead(fields: seq<string>, sep: char)
    requires |fields| >= 1 && fields[0] != []
    requires forall i :: 0 <= i < |fields| ==> sep !in fields[i]
    ensures Split(Join(fields, sep), sep) == fields
    decreases |fields|, |fields[0]|, 0
  {
    var f := fields[0];
    var fields' := [f[1..]] + fields[1..];
    assert sep !in f[1..] by {
      assert forall j :: 0 <= j < |f[1..]| ==> f[1..][j] == f[j + 1];
    }
    assert forall i :: 1 <= i < |fields'| ==> fields'[i] == fields[i];
    SplitJoin(fields', sep);
    JoinHead(fields, sep);
    SplitChar(f[0], Join(fields', sep), sep);
    assert [f[0]] + fields'[0] == f;
    assert fields'[1..] == fields[1..];
    assert fields == [f] + fields[1..];
  }

  lemma SplitSep(s: string, sep: char)
    ensures Split([sep] + s, sep) == [""] + Split(s, sep)
  {
    assert ([sep] + s)[0] == sep && ([sep] + s)[1..] == s;
  }

  lemma SplitChar(c: char, s: string, sep: char)
    requires c != sep
    ensures Split([c] + s, sep) == [[c] + Split(s, sep)[0]] + Split(s, sep)[1..]
  {
    assert ([c] + s)[0] == c && ([c] + s)[1..] == s;
  }

  /** The first character of a non-empty first field heads the join. */
  lemma JoinHead(fields: seq<string>, sep: char)
    requires |fields| >= 1 && fields[0] != []
    ensures Join(fields, sep) == [fields[0][0]] + Join([fields[0][1..]] + fields[1..], sep)
  {
    var f := fields[0];
    var fields' := [f[1..]] + fields[1..];
    if |fields| == 1 {
      assert f == [f[0]] + f[1..];
    } else {
      assert fields'[1..] == fields[1..];
      calc {
        Join(fields, sep);
        f + [sep] + Join(fields[1..], sep);
        [f[0]] + (f[1..] + [sep] + Join(fields[1..], sep));
        [f[0]] + Join(fields', sep);
      }
    }
  }

  predicate HasPrefix(s: string, prefix: string) {
    |s| >= |prefix| && s[..|prefix|] == prefix
  }

  /** `tryParseIntParam`: the number after the `:` when the field holds exactly one
      `:`, otherwise the default rate 1. */
  function TryParseIntParam(value: string): Result<int, NumError> {
    var splits := Split(value, ':');
    if |splits| == 2 then Atoi(splits[1]) else Ok(1)
  }

  /** The renderer a field selects, with its render rate. */
  datatype StyleKind = TrimStyle | EndlessStyle(rate: int) | CycleStyle(rate: int)

  datatype StyleError =
    | ErrInvalidOverflowStyle
    | ErrInvalidStyleForLine(line: nat)
    | ErrRate(cause: NumError)

  /** The three spellings a field may start with. */
  predicate Accepted(field: string) {
    field == "t" || HasPrefix(field, "em") || HasPrefix(field, "cm")
  }

  /** One field of the flag, the `idx`-th (counted from 0). */
  function ParseField(field: string, idx: nat): Result<StyleKind, StyleError> {
    if field == "t" then Ok(TrimStyle)
    else if HasPrefix(field, "em") then
      match TryParseIntParam(field)
      case Ok(rate) => Ok(EndlessStyle(rate))
      case Err(e) => Err(ErrRate(e))
    else if HasPrefix(field, "cm") then
      match TryParseIntParam(field)
      case Ok(rate) => Ok(CycleStyle(rate))
      case Err(e) => Err(ErrRate(e))
    else Err(ErrInvalidStyleForLine(idx))
  }

  /** A field is refused as an invalid style exactly when it is not one of the accepted
      spellings; an accepted field fails only on its rate. */
  lemma ParseFieldRefuses(field: string, idx: nat)
    ensures ParseField(field, idx) == Err(ErrInvalidStyleForLine(idx)) <==> !Accepted(field)
    ensures Accepted(field) && ParseField(field, idx).Err? ==> ParseField(field, idx).error.ErrRate?
  {
  }

  /** The first n fields, parsed left to right; the first failing field decides. */
  function ParseFields(fields: seq<string>, n: nat): Result<seq<StyleKind>, StyleError>
    requires n <= |fields|
  {
    if n == 0 then Ok([])
    else match ParseFields(fields, n - 1)
      case Err(e) => Err(e)
      case Ok(kinds) =>
        match ParseField(fields[n - 1], n - 1)
        case Err(e) => Err(e)
        case Ok(k) => Ok(kinds + [k])
  }

  /** What `TryParseCustomStyle` returns for a flag. */
  function ParseStyles(flag: string): Result<seq<StyleKind>, StyleError> {
    var fields := Split(flag, ',');
    if |fields| != 4 then Err(ErrInvalidOverflowStyle) else ParseFields(fields, 4)
  }

  /** ParseFields succeeds exactly when every one of the first n fields does, and then
      holds their kinds in order; otherwise it reports the first failing field's error. */
  lemma {:induction false} ParseFieldsExact(fields: seq<string>, n: nat)
    requires n <= |fields|
    ensures ParseFields(fields, n).Ok? <==> forall i :: 0 <= i < n ==> ParseField(fields[i], i).Ok?
    ensures ParseFields(fields, n).Ok? ==>
      |ParseFields(fields, n).value| == n &&
      forall i :: 0 <= i < n ==> ParseFields(fields, n).value[i] == ParseField(fields[i], i).value
    ensures ParseFields(fields, n).Err? ==>
      exists i :: 0 <= i < n && ParseField(fields[i], i) == Err(ParseFields(fields, n).error)
                && forall j :: 0 <= j < i ==> ParseField(fields[j], j).Ok?
  {
    if n > 0 {
      ParseFieldsExact(fields, n - 1);
      var prev, cur := ParseFields(fields, n - 1), ParseField(fields[n - 1], n - 1);
      if prev.Err? {
        assert ParseFields(fields, n) == prev;
        var i :| 0 <= i < n - 1 && ParseField(fields[i], i) == Err(prev.error)
                && forall j :: 0 <= j < i ==> ParseField(fields[j], j).Ok?;
      } else if cur.Err? {
        assert ParseFields(fields, n) == Err(cur.error);
        assert forall j :: 0 <= j < n - 1 ==> ParseField(fields[j], j).Ok?;
      } else {
        var r := prev.value + [cur.value];
        assert ParseFields(fields, n) == Ok(r);
        assert forall i :: 0 <= i < n - 1 ==> r[i] == prev.value[i];
      }
    }
  }

  /** The style flag is accepted exactly when it has four fields each of which is "t"
      or starts with "em" or "cm" with a well-formed rate; a wrong field count is
      ErrInvalidOverflowStyle and otherwise the first bad field, by its 0-based index,
      decides the error. */
  lemma ParseStylesExact(flag: string)
    ensures |Split(flag, ',')| != 4 ==> ParseStyles(flag) == Err(ErrInvalidOverflowStyle)
    ensures ParseStyles(flag).Ok? <==>
      |Split(flag, ',')| == 4 && forall i :: 0 <= i < 4 ==> ParseField(Split(flag, ',')[i], i).Ok?
    ensures ParseStyles(flag).Ok? ==>
      |ParseStyles(flag).value| == 4 &&
      forall i :: 0 <= i < 4 ==> ParseStyles(flag).value[i] == ParseField(Split(flag, ',')[i], i).value
    ensures ParseStyles(flag) == Err(ErrInvalidStyleForLine(0)) ==> !Accepted(Split(flag, ',')[0])
    ensures forall k :: 1 <= k < 4 && ParseStyles(flag) == Err(ErrInvalidStyleForLine(k)) ==>
      !Accepted(Split(flag, ',')[k]) && forall j :: 0 <= j < k ==> Accepted(Split(flag, ',')[j])
  {
    var fields := Split(flag, ',');
    if |fields| == 4 {
      ParseFieldsExact(fields, 4);
      if ParseStyles(flag).Err? {
        var i :| 0 <= i < 4 && ParseField(fields[i], i) == Err(ParseStyles(flag).error)
                && forall j :: 0 <= j < i ==> ParseField(fields[j], j).Ok?;
        forall j | 0 <= j < 4 {
          ParseFieldRefuses(fields[j], j);
        }
      }
    }
  }

  /** The loop of `TryParseCustomStyle`: split on commas, insist on four fields, then
      fill the four per-line styles in order, returning at the first bad field. */
  method TryParseCustomStyle(flag: string) returns (r: Result<seq<StyleKind>, StyleError>)
    ensures r == ParseStyles(flag)
  {
    var flags := Split(flag, ',');
    if |flags| != 4 {
      return Err(ErrInvalidOverflowStyle);
    }
    var line: seq<StyleKind> := [];
    for idx := 0 to 4
      invariant ParseFields(flags, idx) == Ok(line)
    {
      var f := flags[idx];
      if f == "t" {
        line := line + [TrimStyle];
      } else if HasPrefix(f, "em") {
        var rate := TryParseIntParam(f);
        if rate.Err? {
          FailureSticks(flags, idx + 1, 4);
          return Err(ErrRate(rate.error));
        }
        line := line + [EndlessStyle(rate.value)];
      } else if HasPrefix(f, "cm") {
        var rate := TryParseIntParam(f);
        if rate.Err? {
          FailureSticks(flags, idx + 1, 4);
          return Err(ErrRate(rate.error));
        }
        line := line + [CycleStyle(rate.value)];
      } else {
        FailureSticks(flags, idx + 1, 4);
        return Err(ErrInvalidStyleForLine(idx));
      }
    }
    return Ok(line);
  }

  /** Once a prefix of the fields fails, every longer prefix fails the same way. */
  lemma {:induction false} FailureSticks(fields: seq<string>, n: nat, m: nat)
    requires n <= m <= |fields|
    requires ParseFields(fields, n).Err?
    ensures ParseFields(fields, m) == ParseFields(fields, n)
    decreases m - n
  {
    if n < m {
      FailureSticks(fields, n, m - 1);
    }
  }

  /** A rate after the one `:` is read with Atoi. */
  lemma ExampleRate()
    ensures ParseField("em:3", 0) == Ok(EndlessStyle(3))
  {
    RateField(3, 0);
    assert Itoa(3) == "3" && "em:" + "3" == "em:3";
  }

  /** A field "em:" or "cm:" followed by the decimal form of any 64-bit rate selects
      that renderer with that rate. */
  lemma RateField(rate: int, idx: nat)
    requires MinInt64 <= rate <= MaxInt64
    ensures ParseField("em:" + Itoa(rate), idx) == Ok(EndlessStyle(rate))
    ensures ParseField("cm:" + Itoa(rate), idx) == Ok(CycleStyle(rate))
  {
    var t := Itoa(rate);
    assert ':' !in t by {
      if rate < 0 {
        assert t == "-" + Digits(-rate);
      }
    }
    RateSplit("em", t);
    RateSplit("cm", t);
    assert "em:" + t == "em" + ":" + t && "cm:" + t == "cm" + ":" + t;
    AtoiItoa(rate);
  }

  /** A two-letter style, a `:` and a rate without `:` split into the style and the rate. */
  lemma RateSplit(style: string, t: string)
    requires |style| == 2 && ':' !in style && ':' !in t
    ensures HasPrefix(style + ":" + t, style) && style + ":" + t != "t"
    ensures Split(style + ":" + t, ':') == [style, t]
  {
    SplitJoin([style, t], ':');
    assert Join([style, t], ':') == style + ":" + t;
    assert (style + ":" + t)[..2] == style;
  }

  /** Zero and negative rates are kept as they are. */
  lemma ExampleOddRates()
    ensures ParseField("cm:-2", 1) == Ok(CycleStyle(-2))
    ensures ParseField("cm:0", 1) == Ok(CycleStyle(0))
  {
    RateField(-2, 1);
    RateField(0, 1);
    assert Itoa(-2) == "-2" && "cm:" + "-2" == "cm:-2";
    assert Itoa(0) == "0" && "cm:" + "0" == "cm:0";
  }

  /** Without a `:`, or with two, the rate is 1, and a field such as "emx" that merely
      starts with "em" is an endless marquee. */
  lemma ExampleDefaults()
    ensures ParseField("emx", 2) == Ok(EndlessStyle(1))
    ensures ParseField("em:1:2", 3) == Ok(EndlessStyle(1))
  {
    SplitJoin(["emx"], ':');
    SplitJoin(["em", "1", "2"], ':');
  }

  /** An empty rate is a syntax error, an unknown style is reported by its 0-based
      index, and a flag without four fields is refused as a whole. */
  lemma ExampleErrors()
    ensures ParseField("em:", 0) == Err(ErrRate(ErrSyntax))
    ensures ParseField("x", 2) == Err(ErrInvalidStyleForLine(2))
    ensures ParseStyles("t,em,cm") == Err(ErrInvalidOverflowStyle)
  {
    SplitJoin(["em", ""], ':');
    SplitJoin(["t", "em", "cm"], ',');
  }
}
