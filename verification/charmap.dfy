/** The glyph map of the LCD driver: a fixed table from full-width katakana and two
    look-alike symbols (each a UTF-8 sequence) to the single-byte JIS X 0201 codes of the
    display's character ROM, and the substitution that folds `bytes.ReplaceAll` over the
    table in the iteration order of a Go map. */
module CharMap {
  import opened Utf8
  import opened Wrappers

  /** One insertion `CharMap[glyph] = []byte{code}` of the table. */
  datatype Entry = Entry(glyph: Rune, code: Byte)

  /** The number of entries the table's initialiser inserts. */
  const Size: nat := 59

  /** The k-th insertion of the initialiser, in declaration order. */
  function Row(k: nat): Entry
    requires k < Size
  {
    match k
    case 0   => Entry(0x300C, 0xA2) // 「
    case 1   => Entry(0x300D, 0xA3) // 」
    case 2   => Entry(0x30F2, 0xA6) // ヲ
    case 3   => Entry(0x30A1, 0xA7) // ァ
    case 4   => Entry(0x30A3, 0xA8) // ィ
    case 5   => Entry(0x30A5, 0xA9) // ゥ
    case 6   => Entry(0x30A7, 0xAA) // ェ
    case 7   => Entry(0x30A9, 0xAB) // ォ
    case 8   => Entry(0x30E3, 0xAC) // ャ
    case 9   => Entry(0x30E5, 0xAD) // ュ
    case 10  => Entry(0x30E7, 0xAE) // ョ
    case 11  => Entry(0x30C3, 0xAF) // ッ
    case 12  => Entry(0x30A2, 0xB1) // ア
    case 13  => Entry(0x30A4, 0xB2) // イ
    case 14  => Entry(0x30A6, 0xB3) // ウ
    case 15  => Entry(0x30A8, 0xB4) // エ
    case 16  => Entry(0x30AA, 0xB5) // オ
    case 17  => Entry(0x30AB, 0xB6) // カ
    case 18  => Entry(0x30AD, 0xB7) // キ
    case 19  => Entry(0x30AF, 0xB8) // ク
    case 20  => Entry(0x30B1, 0xB9) // ケ
    case 21  => Entry(0x30B3, 0xBA) // コ
    case 22  => Entry(0x30B5, 0xBB) // サ
    case 23  => Entry(0x30B7, 0xBC) // シ
    case 24  => Entry(0x30B9, 0xBD) // ス
    case 25  => Entry(0x30BB, 0xBE) // セ
    case 26  => Entry(0x30BD, 0xBF) // ソ
    case 27  => Entry(0x30BF, 0xC0) // タ
    case 28  => Entry(0x30C1, 0xC1) // チ
    case 29  => Entry(0x30C4, 0xC2) // ツ
    case 30  => Entry(0x30C6, 0xC3) // テ
    case 31  => Entry(0x30C8, 0xC4) // ト
    case 32  => Entry(0x30CA, 0xC5) // ナ
    case 33  => Entry(0x30CB, 0xC6) // ニ
    case 34  => Entry(0x30CC, 0xC7) // ヌ
    case 35  => Entry(0x30CD, 0xC8) // ネ
    case 36  => Entry(0x30CE, 0xC9) // ノ
    case 37  => Entry(0x30CF, 0xCA) // ハ
    case 38  => Entry(0x30D2, 0xCB) // ヒ
    case 39  => Entry(0x30D5, 0xCC) // フ
    case 40  => Entry(0x30D8, 0xCD) // ヘ
    case 41  => Entry(0x30DB, 0xCE) // ホ
    case 42  => Entry(0x30DE, 0xCF) // マ
    case 43  => Entry(0x30DF, 0xD0) // ミ
    case 44  => Entry(0x30E0, 0xD1) // ム
    case 45  => Entry(0x30E1, 0xD2) // メ
    case 46  => Entry(0x30E2, 0xD3) // モ
    case 47  => Entry(0x30E4, 0xD4) // ヤ
    case 48  => Entry(0x30E6, 0xD5) // ユ
    case 49  => Entry(0x30E8, 0xD6) // ヨ
    case 50  => Entry(0x30E9, 0xD7) // ラ
    case 51  => Entry(0x30EA, 0xD8) // リ
    case 52  => Entry(0x30EB, 0xD9) // ル
    case 53  => Entry(0x30EC, 0xDA) // レ
    case 54  => Entry(0x30ED, 0xDB) // ロ
    case 55  => Entry(0x30EF, 0xDC) // ワ
    case 56  => Entry(0x30F3, 0xDD) // ン
    case 57  => Entry(0x201D, 0xDE) // ”
    case _   => Entry(0x00BA, 0xDF) // º
  }

  /** Rows of the three glyphs whose codes can collide: ツ -> 0xC2, コ -> 0xBA and
      º, whose own two-byte key is C2 BA. */
  const TsuRow: nat := 29
  const KoRow: nat := 21
  const OrdinalRow: nat := 58
  const Tsu: Rune := 0x30C4
  const Ko: Rune := 0x30B3
  const Ordinal: Rune := 0xBA

  /** The map key of row k: the UTF-8 encoding of its glyph. */
  function Key(k: nat): seq<Byte>
    requires k < Size
  {
    EncodeRune(Row(k).glyph)
  }

  /** Codes lie in the ROM's katakana page 0xA2..0xDF and every glyph is a two- or
      three-byte code point. */
  lemma TableRanges()
    ensures forall k :: 0 <= k < Size ==> 0xA2 <= Row(k).code <= 0xDF
    ensures forall k :: 0 <= k < Size ==> 0x80 <= Row(k).glyph < 0x1_0000
  {
  }

  /** Codes rise strictly from one insertion to the next. */
  lemma CodesIncreasing()
    ensures forall k :: 0 <= k < Size - 1 ==> Row(k).code < Row(k + 1).code
  {
    forall k | 0 <= k < Size - 1
      ensures Row(k).code < Row(k + 1).code
    {
      CodeAt(k);
      CodeAt(k + 1);
    }
  }

  /** The codes run through 0xA2..0xDF in order, skipping 0xA4, 0xA5 and 0xB0. */
  lemma CodeAt(k: nat)
    requires k < Size
    ensures Row(k).code == if k < 2 then 0xA2 + k else if k < 12 then 0xA4 + k else 0xA5 + k
  {
  }

  lemma {:induction false} CodesOrdered(k: nat, l: nat)
    requires k < l < Size
    ensures Row(k).code < Row(l).code
    decreases l - k
  {
    CodesIncreasing();
    if k + 1 < l {
      CodesOrdered(k + 1, l);
    }
  }

  /** º is the last insertion and no earlier row has its glyph. */
  lemma OrdinalLast()
    ensures forall k :: 0 <= k < OrdinalRow ==> Row(k).glyph != Ordinal
  {
  }

  /** No insertion overwrites another: the glyphs are pairwise distinct. */
  lemma GlyphsDistinct()
    ensures forall k, l :: 0 <= k < l < Size ==> Row(k).glyph != Row(l).glyph
  {
  }

  /** No two insertions share a code, and none overwrites another. */
  lemma TableDistinct()
    ensures forall k, l :: 0 <= k < l < Size ==> Row(k).code != Row(l).code
    ensures forall k, l :: 0 <= k < l < Size ==> Row(k).glyph != Row(l).glyph
  {
    forall k, l | 0 <= k < l < Size
      ensures Row(k).code != Row(l).code
    {
      CodesOrdered(k, l);
    }
    GlyphsDistinct();
  }

  /** Every key is a two- or three-byte sequence with no byte below 0x80. */
  lemma KeysWide()
    ensures forall k :: 0 <= k < Size ==> 2 <= |Key(k)| <= 3 && forall i :: 0 <= i < |Key(k)| ==> Key(k)[i] >= 0x80
  {
    TableRanges();
    forall k | 0 <= k < Size
      ensures 2 <= |Key(k)| <= 3 && forall i :: 0 <= i < |Key(k)| ==> Key(k)[i] >= 0x80
    {
      var r := EncodeRune(Row(k).glyph);
      assert LeadLength(r[0]) == |r|;
    }
  }

  /** The table is a well-formed map into the ROM's katakana page. */
  lemma TableWellFormed()
    ensures forall k :: 0 <= k < Size ==> 0xA2 <= Row(k).code <= 0xDF
    ensures forall k, l :: 0 <= k < l < Size ==> Row(k).code != Row(l).code
    ensures forall k, l :: 0 <= k < l < Size ==> Row(k).glyph != Row(l).glyph
    ensures forall k :: 0 <= k < Size ==> 0x80 <= Row(k).glyph < 0x1_0000
    ensures forall k :: 0 <= k < Size ==> 2 <= |Key(k)| <= 3 && forall i :: 0 <= i < |Key(k)| ==> Key(k)[i] >= 0x80
  {
    TableRanges();
    TableDistinct();
    KeysWide();
  }

  lemma CollidingRows()
    ensures Row(TsuRow) == Entry(Tsu, 0xC2) && Row(KoRow) == Entry(Ko, 0xBA)
    ensures Row(OrdinalRow) == Entry(Ordinal, 0xDF) && Key(OrdinalRow) == [0xC2, 0xBA]
    ensures forall k :: 0 <= k < Size && k != OrdinalRow ==> |Key(k)| == 3 && Key(k)[0] >= 0xE0
  {
    forall k | 0 <= k < Size && k != OrdinalRow
      ensures |Key(k)| == 3 && Key(k)[0] >= 0xE0
    {
      assert 0x800 <= Row(k).glyph < 0x1_0000;
    }
  }

  /** The map lookup: the row holding glyph `c`, searching from row `from` on. */
  function FindRow(c: Rune, from: nat): (r: Option<nat>)
    requires from <= Size
    ensures r.Some? ==> from <= r.value < Size && Row(r.value).glyph == c
    ensures r.None? ==> forall k :: from <= k < Size ==> Row(k).glyph != c
    decreases Size - from
  {
    if from == Size then None
    else if Row(from).glyph == c then Some(from)
    else FindRow(c, from + 1)
  }

  /** `CharMap[c]`, if `c` is a key. */
  function Lookup(c: Rune): Option<Byte> {
    match FindRow(c, 0)
    case Some(k) => Some(Row(k).code)
    case None => None
  }

  /** Lookup answers exactly the table's rows. */
  lemma LookupIsTable(c: Rune, b: Byte)
    ensures Lookup(c) == Some(b) <==> exists k :: 0 <= k < Size && Row(k) == Entry(c, b)
  {
    TableWellFormed();
    if k :| 0 <= k < Size && Row(k) == Entry(c, b) {
      var r := FindRow(c, 0);
      assert r.Some?;
      assert r.value == k;
    }
  }

  lemma LookupRow(k: nat)
    requires k < Size
    ensures Lookup(Row(k).glyph) == Some(Row(k).code)
  {
    LookupIsTable(Row(k).glyph, Row(k).code);
  }

  /** Every value of the map is a code of the ROM's katakana page. */
  lemma LookupCode(c: Rune)
    requires Lookup(c).Some?
    ensures 0xA2 <= Lookup(c).value <= 0xDF
  {
    TableRanges();
  }

  /** A code below 0x80 is never a key. */
  lemma LookupAscii(c: Rune)
    requires c < 0x80
    ensures Lookup(c) == None
  {
    TableRanges();
    var r := FindRow(c, 0);
  }

  /** Only ツ maps to 0xC2 and only コ maps to 0xBA. */
  lemma LookupColliding(c: Rune)
    ensures Lookup(c) == Some(0xC2) ==> c == Tsu
    ensures Lookup(c) == Some(0xBA) ==> c == Ko
  {
    TableWellFormed();
    CollidingRows();
    LookupIsTable(c, 0xC2);
    LookupIsTable(c, 0xBA);
  }

  predicate StartsWith(s: seq<Byte>, key: seq<Byte>) {
    |s| >= |key| && s[..|key|] == key
  }

  /** Go's `bytes.ReplaceAll(s, key, []byte{v})`: every non-overlapping occurrence of `key`,
      found left to right, becomes the single byte `v`. */
  function ReplaceAll(s: seq<Byte>, key: seq<Byte>, v: Byte): (r: seq<Byte>)
    requires |key| > 0
    ensures |r| <= |s|
    ensures |key| >= 2 && StartsWith(s, key) ==> |r| < |s|
    decreases |s|
  {
    if |s| < |key| then s
    else if s[..|key|] == key then [v] + ReplaceAll(s[|key|..], key, v)
    else [s[0]] + ReplaceAll(s[1..], key, v)
  }

  /** ReplaceAll copies a prefix in none of whose positions the key starts. */
  lemma {:induction false} SkipPrefix(p: seq<Byte>, rest: seq<Byte>, key: seq<Byte>, v: Byte)
    requires |key| > 0
    requires forall i :: 0 <= i < |p| ==> !StartsWith((p + rest)[i..], key)
    ensures ReplaceAll(p + rest, key, v) == p + ReplaceAll(rest, key, v)
    decreases |p|
  {
    if p != [] {
      var s := p + rest;
      assert s[0..] == s;
      assert s[1..] == p[1..] + rest;
      forall i | 0 <= i < |p[1..]|
        ensures !StartsWith((p[1..] + rest)[i..], key)
      {
        assert (p[1..] + rest)[i..] == s[i + 1..];
      }
      SkipPrefix(p[1..], rest, key, v);
      if |s| >= |key| {
        assert ReplaceAll(s, key, v) == [s[0]] + ReplaceAll(s[1..], key, v);
        assert p == [p[0]] + p[1..];
      } else {
        assert ReplaceAll(rest, key, v) == rest;
      }
    } else {
      assert p + rest == rest;
    }
  }

  /** A byte string below 0x80 contains no key, so ReplaceAll leaves it alone. */
  lemma ReplaceAllAscii(s: seq<Byte>, k: nat)
    requires k < Size
    requires IsAscii(s)
    ensures ReplaceAll(s, Key(k), Row(k).code) == s
  {
    TableWellFormed();
    forall i | 0 <= i < |s|
      ensures !StartsWith((s + [])[i..], Key(k))
    {
      assert (s + [])[i..][0] == s[i];
    }
    SkipPrefix(s, [], Key(k), Row(k).code);
    assert s + [] == s;
  }

  /** The substitution as the source writes it: `bytes.ReplaceAll` folded over the table in
      `order`, the sequence of rows that Go's map iteration happens to visit. */
  function ReplaceRuneWithLCDCharMap(s: seq<Byte>, order: seq<nat>): (r: seq<Byte>)
    requires forall i :: 0 <= i < |order| ==> order[i] < Size
    ensures |r| <= |s|
    decreases |order|
  {
    if order == [] then s
    else
      TableWellFormed();
      ReplaceRuneWithLCDCharMap(ReplaceAll(s, Key(order[0]), Row(order[0]).code), order[1..])
  }

  /** Row k occurs somewhere in `order`. */
  predicate Visits(order: seq<nat>, k: nat) {
    exists i :: 0 <= i < |order| && order[i] == k
  }

  /** An iteration order of the Go map: every row exactly once. */
  predicate IsOrder(order: seq<nat>) {
    && (forall i :: 0 <= i < |order| ==> order[i] < Size)
    && (forall i, j :: 0 <= i < j < |order| ==> order[i] != order[j])
    && (forall k :: 0 <= k < Size ==> Visits(order, k))
  }

  /** Text that contains no byte from 0x80 up, such as the padding spaces, comes back
      unchanged, whatever the order. */
  lemma {:induction false} AsciiUnchanged(s: seq<Byte>, order: seq<nat>)
    requires forall i :: 0 <= i < |order| ==> order[i] < Size
    requires IsAscii(s)
    ensures ReplaceRuneWithLCDCharMap(s, order) == s
  {
    if order != [] {
      ReplaceAllAscii(s, order[0]);
      AsciiUnchanged(s, order[1..]);
    }
  }

  lemma {:induction false} FoldAppend(s: seq<Byte>, a: seq<nat>, b: seq<nat>)
    requires forall i :: 0 <= i < |a| ==> a[i] < Size
    requires forall i :: 0 <= i < |b| ==> b[i] < Size
    ensures forall i :: 0 <= i < |a + b| ==> (a + b)[i] < Size
    ensures ReplaceRuneWithLCDCharMap(s, a + b)
         == ReplaceRuneWithLCDCharMap(ReplaceRuneWithLCDCharMap(s, a), b)
    decreases |a|
  {
    if a == [] {
      assert a + b == b;
    } else {
      assert (a + b)[1..] == a[1..] + b;
      FoldAppend(ReplaceAll(s, Key(a[0]), Row(a[0]).code), a[1..], b);
    }
  }

  // ---------------------------------------------------------------------------
  // The intended substitution: each mapped code point becomes its ROM byte.

  /** The bytes that stand for one code point on the display. */
  function GlyphBytes(c: Rune): seq<Byte> {
    match Lookup(c)
    case Some(b) => [b]
    case None => EncodeRune(c)
  }

  /** The glyph map applied code point by code point: every key becomes its ROM byte and
      every other code point is copied as UTF-8. */
  function MapGlyphs(text: seq<Rune>): seq<Byte> {
    if text == [] then [] else GlyphBytes(text[0]) + MapGlyphs(text[1..])
  }

  /** Every code point gives at least one byte, and the glyph map never lengthens the
      text: a ROM byte replaces two or three bytes and every other code point keeps its
      UTF-8 bytes. */
  lemma {:induction false} MapGlyphsLength(text: seq<Rune>)
    ensures |text| <= |MapGlyphs(text)| <= |Encode(text)|
  {
    if text != [] {
      MapGlyphsLength(text[1..]);
    }
  }

  lemma {:induction false} MapGlyphsAppend(a: seq<Rune>, b: seq<Rune>)
    ensures MapGlyphs(a + b) == MapGlyphs(a) + MapGlyphs(b)
  {
    if a == [] {
      assert a + b == b;
    } else {
      assert (a + b)[1..] == a[1..] + b;
      MapGlyphsAppend(a[1..], b);
    }
  }

  /** Code points below 0x80 are copied byte for byte. */
  lemma {:induction false} MapGlyphsAscii(text: seq<Rune>)
    requires forall i :: 0 <= i < |text| ==> text[i] < 0x80
    ensures MapGlyphs(text) == text
  {
    if text != [] {
      LookupAscii(text[0]);
      MapGlyphsAscii(text[1..]);
    }
  }

  // ---------------------------------------------------------------------------
  // Relating the fold to the intended substitution.

  /** ツ immediately followed by コ somewhere in the text. */
  predicate HasTsuKo(text: seq<Rune>) {
    exists i :: 0 <= i < |text| - 1 && text[i] == Tsu && text[i + 1] == Ko
  }

  /** The bytes of `c` after the rows of the glyphs in `done` have been applied. */
  function PartialRune(c: Rune, done: set<Rune>): seq<Byte> {
    if c in done then GlyphBytes(c) else EncodeRune(c)
  }

  /** The text after the rows of the glyphs in `done` have been applied, if no application
      ever matched across two code points. */
  function Partial(text: seq<Rune>, done: set<Rune>): seq<Byte> {
    if text == [] then [] else PartialRune(text[0], done) + Partial(text[1..], done)
  }

  /** The glyphs of the rows visited by `order`. */
  function GlyphsOf(order: seq<nat>): set<Rune>
    requires forall i :: 0 <= i < |order| ==> order[i] < Size
  {
    set i | 0 <= i < |order| :: Row(order[i]).glyph
  }

  lemma {:induction false} PartialNone(text: seq<Rune>)
    ensures Partial(text, {}) == Encode(text)
  {
    if text != [] {
      PartialNone(text[1..]);
    }
  }

  lemma {:induction false} PartialCovering(text: seq<Rune>, done: set<Rune>)
    requires forall c: Rune :: Lookup(c).Some? ==> c in done
    ensures Partial(text, done) == MapGlyphs(text)
  {
    if text != [] {
      PartialCovering(text[1..], done);
    }
  }

  /** The encoding of a code point other than `g` contains no match of g's key. */
  lemma SkipRune(c: Rune, g: Rune, rest: seq<Byte>, v: Byte)
    requires c != g
    ensures ReplaceAll(EncodeRune(c) + rest, EncodeRune(g), v)
         == EncodeRune(c) + ReplaceAll(rest, EncodeRune(g), v)
  {
    var p, key := EncodeRune(c), EncodeRune(g);
    forall i | 0 <= i < |p|
      ensures !StartsWith((p + rest)[i..], key)
    {
      if i == 0 {
        assert (p + rest)[0..] == p + rest;
        if StartsWith(p + rest, key) {
          EncodePrefixFree(c, g, rest);
        }
      } else {
        assert (p + rest)[i..][0] == p[i];
        assert IsContinuation(p[i]);
        assert !IsContinuation(key[0]);
      }
    }
    SkipPrefix(p, rest, key, v);
  }

  /** A code byte written by an earlier row starts a match only in one way: C2 written for
      ツ followed by BA written for コ, which together spell the key of º. */
  lemma CodeByteMatch(c: Rune, t: seq<Rune>, done: set<Rune>, k: nat)
    requires k < Size
    requires c in done && Lookup(c).Some?
    ensures StartsWith([Lookup(c).value] + Partial(t, done), Key(k))
        ==> Row(k).glyph == Ordinal && Tsu in done && Ko in done && HasTsuKo([c] + t)
  {
    var b := Lookup(c).value;
    if StartsWith([b] + Partial(t, done), Key(k)) {
      LookupCode(c);
      CodeByteOrdinal(b, Partial(t, done), k);
      LookupColliding(c);
      FollowedByKo(t, done);
      assert ([c] + t)[0] == Tsu && ([c] + t)[1] == Ko;
      CollidingRows();
    }
  }

  /** Only the key of º can start at a code byte: C2, followed by BA. */
  lemma CodeByteOrdinal(b: Byte, rest: seq<Byte>, k: nat)
    requires k < Size && 0xA2 <= b <= 0xDF && StartsWith([b] + rest, Key(k))
    ensures k == OrdinalRow && b == 0xC2 && |rest| >= 1 && rest[0] == 0xBA
  {
    CollidingRows();
    var s := [b] + rest;
    assert s[0] == Key(k)[0];
    if k != OrdinalRow {
      assert false;
    }
    assert s[1] == Key(k)[1];
  }

  /** A processed text that starts with BA starts with コ, already applied. */
  lemma FollowedByKo(t: seq<Rune>, done: set<Rune>)
    requires |Partial(t, done)| >= 1 && Partial(t, done)[0] == 0xBA
    ensures t != [] && t[0] == Ko && Ko in done
  {
    assert t != [];
    var r0 := PartialRune(t[0], done);
    assert Partial(t, done) == r0 + Partial(t[1..], done);
    assert r0[0] == 0xBA;
    if !(t[0] in done && Lookup(t[0]).Some?) {
      assert false;
    }
    LookupColliding(t[0]);
  }

  /** Applying row k to the bytes of one code point followed by an already processed tail. */
  lemma ReplaceHead(c: Rune, t: seq<Rune>, done: set<Rune>, k: nat)
    requires k < Size
    requires Row(k).glyph == Ordinal && Tsu in done && Ko in done ==> !HasTsuKo([c] + t)
    ensures ReplaceAll(PartialRune(c, done) + Partial(t, done), Key(k), Row(k).code)
         == PartialRune(c, done + {Row(k).glyph}) + ReplaceAll(Partial(t, done), Key(k), Row(k).code)
  {
    var g, v, key := Row(k).glyph, Row(k).code, Key(k);
    var R := Partial(t, done);
    LookupRow(k);
    if c in done && Lookup(c).Some? {
      var b := Lookup(c).value;
      CodeByteMatch(c, t, done, k);
      assert ([b] + R)[0..] == [b] + R;
      SkipPrefix([b], R, key, v);
    } else if c == g {
      assert PartialRune(c, done) == key;
      assert PartialRune(c, done + {g}) == [v];
      assert (key + R)[..|key|] == key;
      assert (key + R)[|key|..] == R;
    } else {
      SkipRune(c, g, R, v);
    }
  }

  /** One step of the fold: applying row k to a partially substituted text substitutes the
      glyph of row k everywhere, unless the key of º would match across ツ and コ. */
  lemma {:induction false} ReplaceStep(text: seq<Rune>, done: set<Rune>, k: nat)
    requires k < Size
    requires Row(k).glyph == Ordinal && Tsu in done && Ko in done ==> !HasTsuKo(text)
    ensures ReplaceAll(Partial(text, done), Key(k), Row(k).code) == Partial(text, done + {Row(k).glyph})
  {
    if text != [] {
      var c, t := text[0], text[1..];
      assert text == [c] + t;
      if HasTsuKo(t) {
        var i :| 0 <= i < |t| - 1 && t[i] == Tsu && t[i + 1] == Ko;
        assert text[i + 1] == Tsu && text[i + 2] == Ko;
      }
      ReplaceStep(t, done, k);
      ReplaceHead(c, t, done, k);
    }
  }

  /** Folding a sequence of rows over a partially substituted text, when the key of º never
      meets ツ followed by コ. */
  lemma {:induction false} FoldPartial(text: seq<Rune>, done: set<Rune>, order: seq<nat>)
    requires forall i :: 0 <= i < |order| ==> order[i] < Size
    requires HasTsuKo(text) ==> forall i :: 0 <= i < |order| ==> Row(order[i]).glyph != Ordinal
    ensures ReplaceRuneWithLCDCharMap(Partial(text, done), order) == Partial(text, done + GlyphsOf(order))
    decreases |order|
  {
    if order == [] {
      assert done + GlyphsOf(order) == done;
    } else {
      var k := order[0];
      ReplaceStep(text, done, k);
      FoldPartial(text, done + {Row(k).glyph}, order[1..]);
      assert GlyphsOf(order) == {Row(k).glyph} + GlyphsOf(order[1..]) by {
        forall x | x in GlyphsOf(order) ensures x in {Row(k).glyph} + GlyphsOf(order[1..]) {
          var i :| 0 <= i < |order| && Row(order[i]).glyph == x;
          if i > 0 {
            assert order[1..][i - 1] == order[i];
          }
        }
        forall x | x in GlyphsOf(order[1..]) ensures x in GlyphsOf(order) {
          var i :| 0 <= i < |order[1..]| && Row(order[1..][i]).glyph == x;
          assert order[i + 1] == order[1..][i];
        }
      }
      assert done + {Row(k).glyph} + GlyphsOf(order[1..]) == done + GlyphsOf(order);
    }
  }

  /** On every text that never has ツ directly before コ, the fold gives the intended
      substitution, whatever order the map is iterated in. */
  lemma FoldIsGlyphMap(text: seq<Rune>, order: seq<nat>)
    requires IsOrder(order)
    requires !HasTsuKo(text)
    ensures ReplaceRuneWithLCDCharMap(Encode(text), order) == MapGlyphs(text)
  {
    PartialNone(text);
    FoldPartial(text, {}, order);
    forall c: Rune | Lookup(c).Some? ensures c in {} + GlyphsOf(order) {
      var k := FindRow(c, 0).value;
      assert Visits(order, k);
      var i :| 0 <= i < |order| && order[i] == k;
      assert Row(order[i]).glyph == c;
    }
    PartialCovering(text, {} + GlyphsOf(order));
  }

  // ---------------------------------------------------------------------------
  // Where the fold goes wrong.

  /** The order in which the initialiser inserts the rows. */
  function DeclarationOrder(): (order: seq<nat>)
    ensures IsOrder(order)
  {
    var order := seq(Size, k => k);
    assert forall k :: 0 <= k < Size ==> order[k] == k && Visits(order, k);
    order
  }

  /** Another legal iteration order: º first, then the others in declaration order. */
  function OrdinalFirst(): (order: seq<nat>)
    ensures IsOrder(order)
  {
    var order := [OrdinalRow] + seq(Size - 1, k => k);
    OrdinalFirstVisits(order);
    order
  }

  lemma OrdinalFirstVisits(order: seq<nat>)
    requires order == [OrdinalRow] + seq(Size - 1, k => k)
    ensures forall k :: 0 <= k < Size ==> Visits(order, k)
  {
    forall k | 0 <= k < Size
      ensures Visits(order, k)
    {
      if k < OrdinalRow {
        assert order[k + 1] == k;
      } else {
        assert order[0] == k;
      }
    }
  }

  lemma TsuKoPartial(done: set<Rune>)
    requires Tsu in done && Ko in done
    ensures Partial([Tsu, Ko], done) == [0xC2, 0xBA]
  {
    CollidingRows();
    LookupRow(TsuRow);
    LookupRow(KoRow);
    assert PartialRune(Tsu, done) == [0xC2];
    assert PartialRune(Ko, done) == [0xBA];
    assert [Tsu, Ko][1..] == [Ko];
    assert Partial([Ko], done) == [0xBA] + Partial([], done);
  }

  /** "ツコ" comes out as º (0xDF) under the declaration order and as ツコ (C2 BA) when º is
      visited first: the result depends on the map's iteration order, and substituting
      twice is not the same as substituting once. */
  lemma FoldOrderMatters()
    ensures ReplaceRuneWithLCDCharMap(Encode([Tsu, Ko]), DeclarationOrder()) == [0xDF]
    ensures ReplaceRuneWithLCDCharMap(Encode([Tsu, Ko]), OrdinalFirst()) == [0xC2, 0xBA]
    ensures ReplaceRuneWithLCDCharMap(ReplaceRuneWithLCDCharMap(Encode([Tsu, Ko]), OrdinalFirst()), OrdinalFirst())
         != ReplaceRuneWithLCDCharMap(Encode([Tsu, Ko]), OrdinalFirst())
  {
    DeclarationOrderJoins();
    OrdinalFirstKeeps();
    // Substituting the result again joins the pair at the first row.
    var order := OrdinalFirst();
    CollidingRows();
    assert order[0] == OrdinalRow;
    assert ReplaceAll([0xC2, 0xBA], Key(OrdinalRow), 0xDF) == [0xDF];
    ShortUnchanged([0xDF], order[1..]);
  }

  /** Declaration order: every row but º turns "ツコ" into C2 BA, which º then joins. */
  lemma DeclarationOrderJoins()
    ensures ReplaceRuneWithLCDCharMap(Encode([Tsu, Ko]), DeclarationOrder()) == [0xDF]
  {
    var prefix := seq(Size - 1, k => k);
    CollidingRows();
    assert Tsu in GlyphsOf(prefix) by { assert Row(prefix[TsuRow]).glyph == Tsu; }
    assert Ko in GlyphsOf(prefix) by { assert Row(prefix[KoRow]).glyph == Ko; }
    assert DeclarationOrder() == prefix + [OrdinalRow];
    JoinsAfter([Tsu, Ko], prefix);
  }

  /** Rows other than º, among them ツ and コ, followed by º, turn "ツコ" into º. */
  lemma JoinsAfter(text: seq<Rune>, prefix: seq<nat>)
    requires |text| == 2 && text[0] == Tsu && text[1] == Ko
    requires forall i :: 0 <= i < |prefix| ==> prefix[i] < OrdinalRow
    requires Tsu in GlyphsOf(prefix) && Ko in GlyphsOf(prefix)
    ensures ReplaceRuneWithLCDCharMap(Encode(text), prefix + [OrdinalRow]) == [0xDF]
  {
    OrdinalLast();
    CollidingRows();
    assert HasTsuKo(text);
    PartialNone(text);
    FoldAppend(Encode(text), prefix, [OrdinalRow]);
    FoldPartial(text, {}, prefix);
    assert text == [Tsu, Ko];
    TsuKoPartial({} + GlyphsOf(prefix));
    var joined := ReplaceAll([0xC2, 0xBA], Key(OrdinalRow), 0xDF);
    assert joined == [0xDF] + ReplaceAll([], Key(OrdinalRow), 0xDF);
    assert ReplaceRuneWithLCDCharMap([0xC2, 0xBA], [OrdinalRow]) == ReplaceRuneWithLCDCharMap(joined, []);
  }

  /** º first: its key is not in the text, and the other rows leave C2 BA. */
  lemma OrdinalFirstKeeps()
    ensures ReplaceRuneWithLCDCharMap(Encode([Tsu, Ko]), OrdinalFirst()) == [0xC2, 0xBA]
  {
    var text := [Tsu, Ko];
    var prefix := seq(Size - 1, k => k);
    OrdinalLast();
    CollidingRows();
    assert Tsu in GlyphsOf(prefix) by { assert Row(prefix[TsuRow]).glyph == Tsu; }
    assert Ko in GlyphsOf(prefix) by { assert Row(prefix[KoRow]).glyph == Ko; }
    PartialNone(text);
    ReplaceStep(text, {}, OrdinalRow);
    PartialUntouched(text, {Ordinal});
    FoldPartial(text, {} + {Ordinal}, prefix);
    TsuKoPartial({} + {Ordinal} + GlyphsOf(prefix));
    assert OrdinalFirst()[1..] == prefix;
  }

  /** A single code byte from 0xA2 up is shorter than every three-byte key. */
  lemma {:induction false} ShortUnchanged(s: seq<Byte>, order: seq<nat>)
    requires |s| == 1
    requires forall i :: 0 <= i < |order| ==> order[i] < Size
    ensures ReplaceRuneWithLCDCharMap(s, order) == s
  {
    if order != [] {
      TableWellFormed();
      ShortUnchanged(s, order[1..]);
    }
  }

  lemma PaddedPartial(done: set<Rune>)
    requires Tsu in done && Ko in done
    ensures Partial(PadRight([Tsu, Ko], 20), done) == [0xC2, 0xBA] + Spaces(18)
  {
    var text := PadRight([Tsu, Ko], 20);
    assert text == [Tsu, Ko] + Spaces(18);
    PartialAppend([Tsu, Ko], Spaces(18), done);
    TsuKoPartial(done);
    PartialAscii(Spaces(18), done);
  }

  /** A 20-code-point line holding "ツコ" shrinks to 19 bytes under the declaration order,
      one byte short of the 20 that every renderer slices from a line. */
  lemma PaddedLineShrinks()
    ensures |ReplaceRuneWithLCDCharMap(Encode(PadRight([Tsu, Ko], 20)), DeclarationOrder())| == 19
  {
    var text := PadRight([Tsu, Ko], 20);
    var prefix := seq(Size - 1, k => k);
    CollidingRows();
    assert HasTsuKo(text) by { assert text[0] == Tsu && text[1] == Ko; }
    assert Tsu in GlyphsOf(prefix) by { assert Row(prefix[TsuRow]).glyph == Tsu; }
    assert Ko in GlyphsOf(prefix) by { assert Row(prefix[KoRow]).glyph == Ko; }
    var done := {} + GlyphsOf(prefix);
    PartialNone(text);
    assert DeclarationOrder() == prefix + [OrdinalRow];
    FoldAppend(Encode(text), prefix, [OrdinalRow]);
    OrdinalLast();
    FoldPartial(text, {}, prefix);
    PaddedPartial(done);
    var sp: seq<Byte> := Spaces(18);
    assert ([0xC2, 0xBA] + sp)[..2] == [0xC2, 0xBA];
    assert ([0xC2, 0xBA] + sp)[2..] == sp;
    ReplaceAllAscii(sp, OrdinalRow);
  }

  lemma {:induction false} PartialAppend(a: seq<Rune>, b: seq<Rune>, done: set<Rune>)
    ensures Partial(a + b, done) == Partial(a, done) + Partial(b, done)
  {
    if a == [] {
      assert a + b == b;
    } else {
      assert (a + b)[1..] == a[1..] + b;
      PartialAppend(a[1..], b, done);
    }
  }

  lemma {:induction false} PartialUntouched(text: seq<Rune>, done: set<Rune>)
    requires forall i :: 0 <= i < |text| ==> text[i] !in done
    ensures Partial(text, done) == Encode(text)
  {
    if text != [] {
      PartialUntouched(text[1..], done);
    }
  }

  lemma {:induction false} PartialAscii(text: seq<Rune>, done: set<Rune>)
    requires forall i :: 0 <= i < |text| ==> text[i] < 0x80
    ensures Partial(text, done) == text
  {
    if text != [] {
      LookupAscii(text[0]);
      PartialAscii(text[1..], done);
      assert text == [text[0]] + text[1..];
    }
  }
}
