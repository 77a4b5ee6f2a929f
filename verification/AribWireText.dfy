// Short texts through both converters of contrib/gconv/arib-std-b24.c, byte for
// byte, in terms of what glibc's tables have for their characters.

module AribWireText {
  import opened Base
  import opened AribDecoder
  import opened AribCharConv
  import opened AribEncoder
  import opened AribSimulation
  import opened AribRoundTrip
  import opened AribText
  import opened AribTextRoundTrip
  import opened AribExamples
  import opened AribCells
  import opened AribWireIn
  import opened AribWireOut

  // A call turns the text into these bytes, to its end.
  predicate Encodes(cps: seq<Ucs>, bytes: seq<Byte>, jis: Jis) {
    var c := OneCall(cps, jis);
    c.ok && AllValid(c.us) && EmitAll(DEFAULT_SHADOW, c.us).bytes == bytes
  }

  lemma SingleUnit(ch: Ucs, u: Unit, bytes: seq<Byte>, jis: Jis)
    requires Classify(ch, jis) == Direct(u) && ValidUnit(u) && Emit(DEFAULT_SHADOW, u).bytes == bytes
    ensures Encodes([ch], bytes, jis)
  {
    hide Classify, Emit, ValidUnit;
    OneTurn(ch, jis);
    assert [u][1..] == [] && EmitAll(Emit(DEFAULT_SHADOW, u).sh, []).bytes == [];
    assert bytes + [] == bytes;
  }

  // The first character of a text.
  lemma FirstBytes(hi: Byte, lo: Byte, plane2: bool)
    requires 0x21 <= hi <= 0x7e && 0x21 <= lo <= 0x7e
    ensures var code := hi * 256 + lo;
            && code / 256 == hi && code % 256 == lo && IsCode(code)
            && Emit(DEFAULT_SHADOW, Hira(lo)).bytes == [0x80 + lo]
            && Emit(DEFAULT_SHADOW, Kata(lo)).bytes == [0x1b, 0x7c, 0x80 + lo]
            && Emit(DEFAULT_SHADOW, Kanji(code)).bytes == [hi, lo]
            && Emit(DEFAULT_SHADOW, X0213(code, plane2)).bytes
            == [0x1b, 0x24, 0x2a, if plane2 then 0x3a else 0x39, 0x80 + hi, 0x80 + lo]
            && Emit(DEFAULT_SHADOW, ExtSym(code)).bytes == [0x1b, 0x24, 0x2b, 0x3b, 0x1d, hi, lo]
  {
    HiraganaBytes(DEFAULT_SHADOW, lo);
    KatakanaBytes(DEFAULT_SHADOW, lo);
    KanjiBytes(DEFAULT_SHADOW, hi, lo);
    Jisx0213Bytes(DEFAULT_SHADOW, hi, lo, plane2);
    ExtsymBytes(DEFAULT_SHADOW, hi, lo);
  }

  // ----- One character that no table is asked for -----

  lemma AsciiText(ch: Ucs, jis: Jis)
    ensures 0x21 <= ch <= 0x7e ==> Encodes([ch], [0x0e, ch], jis)
    ensures ch in {0x00, 0x08, 0x0a, 0x0d, 0x20, 0x7f, 0xa0} ==> Encodes([ch], [ch], jis)
  {
    if 0x21 <= ch <= 0x7e {
      SingleUnit(ch, Ascii(ch), [0x0e, ch], jis);
    } else if ch in {0x00, 0x08, 0x0a, 0x0d, 0x20, 0x7f, 0xa0} {
      SingleUnit(ch, Ascii(ch), [ch], jis);
    }
  }

  lemma YenAndOverline(jis: Jis)
    ensures Encodes([0xa5], [0x0e, 0x5c], jis) && Encodes([0x203e], [0x0e, 0x7e], jis)
  {
    SingleUnit(0xa5, Ascii(0x5c), [0x0e, 0x5c], jis);
    SingleUnit(0x203e, Ascii(0x7e), [0x0e, 0x7e], jis);
  }

  lemma HalfWidthText(ch: Ucs, jis: Jis)
    requires 0xff61 <= ch <= 0xff9f
    ensures Encodes([ch], [0x1b, 0x2b, 0x49, 0x1b, 0x7c, 0xa1 + (ch - 0xff61)], jis)
  {
    SingleUnit(ch, HalfKata(ch - 0xfec0), [0x1b, 0x2b, 0x49, 0x1b, 0x7c, 0xa1 + (ch - 0xff61)], jis);
  }

  lemma MarkText(ch: Ucs, i: nat, jis: Jis)
    requires IsKanaPunc(ch) == Some(i) && i < 10
    ensures Encodes([ch], if 2 <= i < 4 then [0x1b, 0x7c, 0xf5 + i] else [if i < 2 then 0xf7 + i else 0xf5 + i], jis)
  {
    MarkRange(ch);
    hide IsKanaPunc, Encodes, ClassifyJis;
    assert Emit(DEFAULT_SHADOW, Punc(i)).bytes
        == if 2 <= i < 4 then [0x1b, 0x7c, 0xf5 + i] else [if i < 2 then 0xf7 + i else 0xf5 + i];
    SingleUnit(ch, Punc(i), Emit(DEFAULT_SHADOW, Punc(i)).bytes, jis);
  }

  lemma MarkRange(ch: Ucs)
    ensures IsKanaPunc(ch).Some? ==> 0x3000 < ch < 0x3100
  {
  }

  lemma KanaMarkText(jis: Jis)
    ensures Encodes([0x309d], [0xf7], jis) && Encodes([0x309e], [0xf8], jis)
    ensures Encodes([0x30fd], [0x1b, 0x7c, 0xf7], jis) && Encodes([0x30fe], [0x1b, 0x7c, 0xf8], jis)
    ensures Encodes([0x30fc], [0xf9], jis) && Encodes([0x3002], [0xfa], jis)
    ensures Encodes([0x300c], [0xfb], jis) && Encodes([0x300d], [0xfc], jis)
    ensures Encodes([0x3001], [0xfd], jis) && Encodes([0x30fb], [0xfe], jis)
  {
    hide Encodes;
    MarkText(0x309d, 0, jis);
    MarkText(0x309e, 1, jis);
    MarkText(0x30fd, 2, jis);
    MarkText(0x30fe, 3, jis);
    MarkText(0x30fc, 4, jis);
    MarkText(0x3002, 5, jis);
    MarkText(0x300c, 6, jis);
    MarkText(0x300d, 7, jis);
    MarkText(0x3001, 8, jis);
    MarkText(0x30fb, 9, jis);
  }

  // ----- One character that is looked up -----

  // Not ASCII, no half-width katakana, yen sign or overline, no mark of the kana.
  predicate IsLookedUp(ch: Ucs) {
    && ch > 0xa0 && !(0xff61 <= ch <= 0xff9f) && ch != 0xa5 && ch != 0x203e
    && ch !in {0x309d, 0x309e, 0x30fd, 0x30fe, 0x30fc, 0x3002, 0x300c, 0x300d, 0x3001, 0x30fb}
  }

  lemma LookedUp(ch: Ucs, jis: Jis)
    requires IsLookedUp(ch)
    ensures Classify(ch, jis) == ClassifyJis(ch, jis)
  {
    hide ClassifyJis;
  }

  lemma Flags(plane2: bool, hi: Byte, base: bool, lo: Byte)
    requires hi < 128 && lo < 128
    ensures var jch := (if plane2 then 0x8000 else 0) + hi * 256 + (if base then 0x80 else 0) + lo;
            && Seven(jch) == hi * 256 + lo && (MayCompose(jch) <==> base) && (IsPlane2(jch) <==> plane2)
  {
    CodeParts(if plane2 then 1 else 0, hi, if base then 1 else 0, lo,
              (if plane2 then 0x8000 else 0) + hi * 256 + (if base then 0x80 else 0) + lo);
  }

  // What ucs4_to_jisx0213 has for a character: no base, of this plane and code.
  predicate HasCode(ch: Ucs, plane2: bool, hi: Byte, lo: Byte, jis: Jis) {
    hi < 128 && lo < 128 && jis.to213(ch) == (if plane2 then 0x8000 else 0) + hi * 256 + lo
  }

  predicate IsMark(hi: Byte, lo: Byte) { (hi == 0x22 && lo == 0x7e) || (hi == 0x21 && 0x2d <= lo <= 0x32) }

  lemma CodeFlags(ch: Ucs, plane2: bool, hi: Byte, lo: Byte, jis: Jis)
    requires HasCode(ch, plane2, hi, lo, jis)
    ensures Seven(jis.to213(ch)) == hi * 256 + lo && !MayCompose(jis.to213(ch))
    ensures IsPlane2(jis.to213(ch)) <==> plane2
  {
    Flags(plane2, hi, false, lo);
  }

  // Kana of JIS X 0208 that are no base: one byte in GR, whatever code JIS X 0213
  // has.
  lemma KanaText(ch: Ucs, row: Byte, col: Byte, plane2: bool, hi: Byte, lo: Byte, jis: Jis)
    requires IsLookedUp(ch) && jis.to208(ch) == Some((row, col)) && 0x21 <= col <= 0x7e
    requires HasCode(ch, plane2, hi, lo, jis)
    ensures row == 0x24 ==> Encodes([ch], [0x80 + col], jis)
    ensures row == 0x25 ==> Encodes([ch], [0x1b, 0x7c, 0x80 + col], jis)
  {
    LookedUp(ch, jis);
    CodeFlags(ch, plane2, hi, lo, jis);
    hide Encodes, Seven, MayCompose, IsPlane2, Emit, Classify, HasCode;
    if row == 0x24 {
      HiraganaBytes(DEFAULT_SHADOW, col);
      SingleUnit(ch, Hira(col), [0x80 + col], jis);
    } else if row == 0x25 {
      KatakanaBytes(DEFAULT_SHADOW, col);
      SingleUnit(ch, Kata(col), [0x1b, 0x7c, 0x80 + col], jis);
    }
  }

  // Other characters of JIS X 0208: the code that JIS X 0213 has, as kanji unless
  // it is that of a non-spacing mark.
  lemma KanjiText(ch: Ucs, hi: Byte, lo: Byte, jis: Jis)
    requires IsLookedUp(ch) && jis.to208(ch).Some? && jis.to208(ch).value.0 != 0x24 && jis.to208(ch).value.0 != 0x25
    requires HasCode(ch, false, hi, lo, jis) && 0x21 <= hi <= 0x7e && 0x21 <= lo <= 0x7e
    ensures Encodes([ch], if IsMark(hi, lo) then [0x1b, 0x24, 0x2a, 0x39, 0x80 + hi, 0x80 + lo] else [hi, lo], jis)
  {
    LookedUp(ch, jis);
    CodeFlags(ch, false, hi, lo, jis);
    MarkCode(hi, lo);
    var jch := jis.to213(ch);
    assert jch == hi * 256 + lo;
    hide Encodes, Seven, MayCompose, IsPlane2, Emit, Classify, HasCode, IsMark, IsNonspacing;
    FirstBytes(hi, lo, false);
    hide IsCode, DEFAULT_SHADOW;
    if IsMark(hi, lo) {
      SingleUnit(ch, X0213(jch, false), [0x1b, 0x24, 0x2a, 0x39, 0x80 + hi, 0x80 + lo], jis);
    } else {
      SingleUnit(ch, Kanji(jch), [hi, lo], jis);
    }
  }

  lemma MarkCode(hi: Byte, lo: Byte)
    ensures IsNonspacing(hi * 256 + lo) <==> IsMark(hi, lo)
  {
  }

  // A character that JIS X 0208 does not have and that is no base: the list of
  // extra symbols comes first, then the plane of JIS X 0213.
  lemma Jisx0213Text(ch: Ucs, plane2: bool, hi: Byte, lo: Byte, jis: Jis)
    requires IsLookedUp(ch) && jis.to208(ch).None? && jis.extsym(ch).None?
    requires HasCode(ch, plane2, hi, lo, jis) && 0x21 <= hi <= 0x7e && 0x21 <= lo <= 0x7e
    ensures Encodes([ch], [0x1b, 0x24, 0x2a, if plane2 then 0x3a else 0x39, 0x80 + hi, 0x80 + lo], jis)
  {
    LookedUp(ch, jis);
    CodeFlags(ch, plane2, hi, lo, jis);
    assert jis.to213(ch) != 0;
    hide Encodes, Seven, MayCompose, IsPlane2, Emit, Classify, HasCode;
    FirstBytes(hi, lo, plane2);
    hide IsCode, DEFAULT_SHADOW;
    SingleUnit(ch, X0213(hi * 256 + lo, plane2),
               [0x1b, 0x24, 0x2a, if plane2 then 0x3a else 0x39, 0x80 + hi, 0x80 + lo], jis);
  }

  lemma ExtsymText(ch: Ucs, plane2: bool, row: Byte, col: Byte, hi: Byte, lo: Byte, jis: Jis)
    requires IsLookedUp(ch) && jis.to208(ch).None? && jis.extsym(ch) == Some(hi * 256 + lo)
    requires HasCode(ch, plane2, row, col, jis) && 0x21 <= hi <= 0x7e && 0x21 <= lo <= 0x7e
    ensures Encodes([ch], [0x1b, 0x24, 0x2b, 0x3b, 0x1d, hi, lo], jis)
  {
    LookedUp(ch, jis);
    CodeFlags(ch, plane2, row, col, jis);
    FirstBytes(hi, lo, false);
    hide Encodes, Seven, MayCompose, IsPlane2, Emit, Classify, HasCode, IsCode, DEFAULT_SHADOW;
    SingleUnit(ch, ExtSym(hi * 256 + lo), [0x1b, 0x24, 0x2b, 0x3b, 0x1d, hi, lo], jis);
  }

  // A character that no table has is passed over if it is a tag, and else
  // illegal; so are the controls that the coding has no use for.
  lemma UnlistedText(ch: Ucs, jis: Jis)
    requires IsLookedUp(ch) && jis.to208(ch).None? && jis.extsym(ch).None? && jis.to213(ch) == 0
    ensures if 0xe0000 <= ch <= 0xe007f then Encodes([ch], [], jis) else OneCall([ch], jis) == Chosen([], false)
  {
    LookedUp(ch, jis);
    Flags(false, 0, false, 0);
    hide Seven, MayCompose, IsPlane2, Classify;
    OneTurn(ch, jis);
  }

  lemma ControlText(ch: Ucs, jis: Jis)
    requires (0x01 <= ch <= 0x1f && ch !in {0x08, 0x0a, 0x0d}) || 0x80 <= ch <= 0x9f
    ensures OneCall([ch], jis) == Chosen([], false)
  {
    OneTurn(ch, jis);
  }

  // Nothing behind an illegal character counts.
  lemma {:induction false} StopsThere(prev: nat, a: seq<Ucs>, b: seq<Ucs>, jis: Jis)
    requires !Turns(prev, a, jis).ok
    ensures Turns(prev, a + b, jis) == Turns(prev, a, jis)
    decreases |a|
  {
    hide TakeTurn;
    ConsAppend(a, b);
    if TakeTurn(prev, a[0], jis).ok {
      StopsThere(TakeTurn(prev, a[0], jis).prev, a[1..], b, jis);
    }
  }

  // ----- A base -----

  // What is buffered for a base of JIS X 0213, and what goes out for it later.
  predicate IsBase(ch: Ucs, hi: Byte, lo: Byte, jis: Jis) {
    IsLookedUp(ch) && 0x21 <= hi <= 0x7e && 0x21 <= lo <= 0x7e && jis.to213(ch) == hi * 256 + 0x80 + lo
  }

  lemma BaseIsBuffered(ch: Ucs, hi: Byte, lo: Byte, jis: Jis)
    requires IsBase(ch, hi, lo, jis)
    ensures var p := (if jis.to208(ch).Some? then 0 else 0x10000) + hi * 256 + lo;
            && Classify(ch, jis) == Buffer(p)
            && Seven(p) == hi * 256 + lo
            && Buffered(p) == if jis.to208(ch).None? then X0213(hi * 256 + lo, false)
                              else if hi == 0x24 then Hira(lo)
                              else if hi == 0x25 then Kata(lo)
                              else Kanji(hi * 256 + lo)
  {
    LookedUp(ch, jis);
    Flags(false, hi, true, lo);
    SevenOfSeven(hi * 256 + 0x80 + lo);
    hide Seven, MayCompose, IsPlane2, Classify;
  }

  // Nothing goes out for a base by itself.
  lemma BaseAlone(ch: Ucs, hi: Byte, lo: Byte, jis: Jis)
    requires IsBase(ch, hi, lo, jis)
    ensures Encodes([ch], [], jis)
  {
    BaseIsBuffered(ch, hi, lo, jis);
    hide Classify, Buffered, IsBase, Seven;
    OneTurn(ch, jis);
  }

  lemma TwoTurns(ch: Ucs, next: Ucs, prev: nat, jis: Jis)
    requires Classify(ch, jis) == Buffer(prev) && prev != 0
    ensures var t := TakeTurn(prev, next, jis);
            OneCall([ch, next], jis) == Chosen(t.us, t.ok)
  {
    hide Classify, TakeTurn;
    assert [ch, next][1..] == [next] && [next][1..] == [];
    var t := TakeTurn(prev, next, jis);
    assert t.us + [] == t.us && [] + t.us == t.us;
    assert TakeTurn(0, ch, jis) == Turn([], prev, true) by { BufferTurn(ch, prev, jis); }
    assert Turns(prev, [next], jis) == t by { if t.ok { assert Turns(t.prev, [], jis) == Turn([], t.prev, true); } }
  }

  lemma BufferTurn(ch: Ucs, prev: nat, jis: Jis)
    requires Classify(ch, jis) == Buffer(prev)
    ensures TakeTurn(0, ch, jis) == Turn([], prev, true)
  {
    hide Classify;
  }

  // With a combining character of its own it goes out as the code of the two.
  lemma PairText(ch: Ucs, mark: Ucs, hi: Byte, lo: Byte, code: nat, jis: Jis)
    requires IsBase(ch, hi, lo, jis) && Composed(hi * 256 + lo, mark) == Some(code)
    ensures IsCode(code)
    ensures Encodes([ch, mark], [0x1b, 0x24, 0x2a, 0x39, 0x80 + code / 256, 0x80 + code % 256], jis)
  {
    BaseIsBuffered(ch, hi, lo, jis);
    ComposedIsCode(hi * 256 + lo, mark);
    SevenTwice(hi, lo);
    hide *;
    PairBytes(ch, mark, hi * 256 + lo, code, jis);
  }

  lemma PairBytes(ch: Ucs, mark: Ucs, base: nat, code: nat, jis: Jis)
    requires IsCode(code) && Composed(base, mark) == Some(code) && Seven(base) == base && base != 0
    requires exists p | Classify(ch, jis) == Buffer(p) && p != 0 :: Seven(p) == base
    ensures Encodes([ch, mark], [0x1b, 0x24, 0x2a, 0x39, 0x80 + code / 256, 0x80 + code % 256], jis)
  {
    var p :| Classify(ch, jis) == Buffer(p) && p != 0 && Seven(p) == base;
    assert Composed(p, mark) == Some(code);
    CodeBytes(code);
    hide Classify, Seven, Composed, Emit, IsCode;
    TwoTurns(ch, mark, p, jis);
    OneUnit(X0213(code, false));
  }

  lemma CodeBytes(code: nat)
    requires IsCode(code)
    ensures Emit(DEFAULT_SHADOW, X0213(code, false)).bytes
         == [0x1b, 0x24, 0x2a, 0x39, 0x80 + code / 256, 0x80 + code % 256]
  {
  }

  lemma SevenTwice(hi: Byte, lo: Byte)
    requires hi < 128 && lo < 128
    ensures Seven(hi * 256 + lo) == hi * 256 + lo
  {
    Flags(false, hi, false, lo);
  }

  lemma OneUnit(u: Unit)
    requires ValidUnit(u)
    ensures AllValid([u]) && EmitAll(DEFAULT_SHADOW, [u]).bytes == Emit(DEFAULT_SHADOW, u).bytes
  {
    hide Emit, ValidUnit;
    assert [u][1..] == [];
    var e := Emit(DEFAULT_SHADOW, u);
    assert EmitAll(e.sh, []).bytes == [] && e.bytes + [] == e.bytes;
  }

  // In front of a line feed it goes out as what it stands for alone.
  lemma BaseAndLineFeed(ch: Ucs, hi: Byte, lo: Byte, jis: Jis)
    requires IsBase(ch, hi, lo, jis)
    ensures Encodes([ch, 0x0a],
                    (if jis.to208(ch).None? then [0x1b, 0x24, 0x2a, 0x39, 0x80 + hi, 0x80 + lo]
                     else if hi == 0x24 then [0x80 + lo]
                     else if hi == 0x25 then [0x1b, 0x7c, 0x80 + lo]
                     else [hi, lo]) + [0x0a], jis)
  {
    BaseIsBuffered(ch, hi, lo, jis);
    FirstBytes(hi, lo, false);
    hide IsCode, Seven, Emit, Classify, Buffered, DEFAULT_SHADOW, Encodes;
    var p := (if jis.to208(ch).Some? then 0 else 0x10000) + hi * 256 + lo;
    assert ValidUnit(Buffered(p)) && p != 0;
    hide *;
    BaseThenLineFeed(ch, p, jis);
  }

  lemma BaseThenLineFeed(ch: Ucs, p: nat, jis: Jis)
    requires Classify(ch, jis) == Buffer(p) && p != 0 && ValidUnit(Buffered(p))
    ensures Encodes([ch, 0x0a], Emit(DEFAULT_SHADOW, Buffered(p)).bytes + [0x0a], jis)
  {
    hide Classify, Buffered, Emit, TakeTurn, ValidUnit;
    LineFeedTurn(p, jis);
    TwoTurns(ch, 0x0a, p, jis);
    UnitAndLineFeed(Buffered(p));
  }

  lemma LineFeedTurn(prev: nat, jis: Jis)
    requires prev != 0
    ensures TakeTurn(prev, 0x0a, jis) == Turn([Buffered(prev), Ascii(0x0a)], 0, true)
  {
    assert Composed(prev, 0x0a) == None;
    hide Buffered;
    assert [Buffered(prev)] + [Ascii(0x0a)] == [Buffered(prev), Ascii(0x0a)];
  }

  lemma UnitAndLineFeed(u: Unit)
    requires ValidUnit(u)
    ensures AllValid([u, Ascii(0x0a)])
    ensures EmitAll(DEFAULT_SHADOW, [u, Ascii(0x0a)]).bytes == Emit(DEFAULT_SHADOW, u).bytes + [0x0a]
  {
    var e := Emit(DEFAULT_SHADOW, u);
    AsciiBytes(e.sh, 0x0a);
    assert [u, Ascii(0x0a)][1..] == [Ascii(0x0a)] && [Ascii(0x0a)][1..] == [];
    hide Emit;
    assert EmitAll(e.sh, [Ascii(0x0a)]).bytes == [0x0a];
  }

  // ----- Decoding -----

  // Input that is one glyph is decoded as its code points.
  lemma OneGlyph(s: State, input: seq<Byte>, g: Glyph, t: State, jis: Jis)
    requires Inv(s) && Reads(s, input, [g], t) && ProperGlyph(g) && GlyphConv(g, jis) != []
    ensures var d := Decode(s, input, jis);
            d.ok && d.cps == GlyphConv(g, jis)
  {
    DecodeRendersRun(s, input, jis);
    hide Inv, Run, Decode, GlyphConv, ProperGlyph;
    assert [g][1..] == [] && Render([], jis) == Text([], true);
    assert GlyphConv(g, jis) + [] == GlyphConv(g, jis);
  }

  // Behind a locking shift into GL the sets of kana are read there, and the
  // marks of the kanji set are those of the encoder's table.
  lemma LockedKana(c: Byte, jis: Jis)
    requires 0x21 <= c <= 0x73
    ensures Inv(DEFAULT)
    ensures var h, k := Decode(DEFAULT, [0x1b, 0x6e, c], jis), Decode(DEFAULT, [0x1b, 0x6f, c], jis);
            h.ok && h.cps == [0x3041 + (c - 0x21)] && k.ok && k.cps == [0x30a1 + (c - 0x21)]
  {
    DefaultInSync();
    ByteBehindShift(DEFAULT, c);
    HiraganaCells(0x30, c, jis);
    KatakanaCells(0x31, c, jis);
    hide Decode, Reads, CharConv, Inv;
    OneGlyph(DEFAULT, [0x1b, 0x6e, c], Sym(0x30, c, 0), DEFAULT.(gl := 2), jis);
    OneGlyph(DEFAULT, [0x1b, 0x6f, c], Sym(0x31, c, 0), DEFAULT.(gl := 3), jis);
  }

  lemma KanjiCell(c: Byte, e: Byte, jis: Jis)
    requires 0x21 <= c <= 0x7e && 0x20 <= e <= 0x7f && CharConv(0x42, c, e, jis) != []
    ensures Inv(DEFAULT)
    ensures var d := Decode(DEFAULT, [c, e], jis);
            d.ok && d.cps == CharConv(0x42, c, e, jis)
  {
    DefaultInSync();
    GraphicPair(DEFAULT, c, e);
    hide Decode, Reads, CharConv, Inv;
    OneGlyph(DEFAULT, [c, e], Sym(0x42, c, e), DEFAULT, jis);
  }

  lemma NonspacingText(jis: Jis)
    ensures Inv(DEFAULT)
    ensures Decode(DEFAULT, [0x21, 0x2d], jis).cps == [0x0301] && Decode(DEFAULT, [0x21, 0x2e], jis).cps == [0x0300]
    ensures Decode(DEFAULT, [0x22, 0x7e], jis).cps == [0x20dd]
  {
    NonspacingCells(0x42, jis);
    hide Decode, CharConv, Inv, DEFAULT;
    KanjiCell(0x21, 0x2d, jis);
    KanjiCell(0x21, 0x2e, jis);
    KanjiCell(0x22, 0x7e, jis);
  }
}
