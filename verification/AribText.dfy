// What the decoder makes of the glyphs that single characters, and pairs of a
// base and a combining character, are encoded as: their own code points, but for
// a few characters that the code itself maps differently in the two directions.

module AribText {
  import opened Base
  import opened AribTables
  import opened AribDecoder
  import opened AribCharConv
  import opened AribEncoder
  import opened AribSimulation

  // ucs4_to_extsym by code: the code point listed with it, or 0.
  function ExtsymKey(row: nat, col: nat): Ucs {
    match row
    case 0x75 => Extsym75(col)
    case 0x76 => Extsym76(col)
    case 0x7a => Extsym7a(col)
    case 0x7b => Extsym7b(col)
    case 0x7c => Extsym7c(col)
    case 0x7d => Extsym7d(col)
    case 0x7e => Extsym7e(col)
    case _ => 0
  }

  // The entries of ucs4_to_extsym that extra_kanji and extra_symbols disagree with.
  const BAD_EXTSYM: set<Ucs> := {0x2603, 0x26c4, 0x2762, 0x89d2, 0x1f6e7}

  // Of the 495 entries all but five are undone by the decoder's tables.
  lemma ExtsymIff(row: Byte, col: Byte, jis: Jis)
    requires 0x21 <= row <= 0x7e && 1 <= col < 0x5f && ExtsymKey(row, col) != 0
    ensures var cps := CharConv(EXTRA_SYMBOLS, row, col + 0x20, jis);
            |cps| == 1 && (cps[0] == ExtsymKey(row, col) <==> ExtsymKey(row, col) !in BAD_EXTSYM)
  {
    hide ExtsymKey, ExtraKanji, ExtraSymbols, CharConv;
    if row == 0x75 || row == 0x76 {
      ExtsymKanjiAgrees(row, col);
      ExtraKanjiConv(row, col, jis);
    } else {
      ExtsymSymbolAgrees(row, col);
      ExtraSymbolConv(row, col, jis);
    }
  }

  lemma ExtsymKanjiAgrees(row: nat, col: nat)
    requires 1 <= col < 95 && (row == 0x75 || row == 0x76) && ExtsymKey(row, col) != 0
    ensures row == 0x76 ==> col <= 43
    ensures Agree(ExtsymKey(row, col), ExtraKanji((row - 0x75) * 96 + col))
  {
    hide Extsym75, Extsym76, ExtraKanji75, ExtraKanji76;
    if row == 0x75 { Row75(col); } else { Row76(col); }
  }

  lemma ExtsymSymbolAgrees(row: nat, col: nat)
    requires 1 <= col < 95 && 0x21 <= row <= 0x7e && row != 0x75 && row != 0x76
    requires ExtsymKey(row, col) != 0
    ensures 0x7a <= row <= 0x7e
    ensures row == 0x7c ==> !(0x1a <= col <= 0x1f) && !(0x38 <= col <= 0x55)
    ensures Agree(ExtsymKey(row, col), ExtraSymbols(row - 0x7a, col))
  {
    hide Extsym7a, Extsym7b, Extsym7c, Extsym7d, Extsym7e;
    hide ExtraSymbols7a, ExtraSymbols7b, ExtraSymbols7c, ExtraSymbols7d, ExtraSymbols7e;
    match row
    case 0x7a => Row7a(col);
    case 0x7b => Row7b(col);
    case 0x7c => Row7c(col);
    case 0x7d => Row7d(col);
    case 0x7e => Row7e(col);
    case _ =>
  }

  lemma ExtraKanjiConv(row: nat, col: nat, jis: Jis)
    requires 1 <= col < 95 && (row == 0x75 || (row == 0x76 && col <= 43))
    ensures CharConv(EXTRA_SYMBOLS, row, col + 0x20, jis) == [ExtraKanji((row - 0x75) * 96 + col)]
  {
    hide ExtraKanji;
  }

  lemma ExtraSymbolConv(row: nat, col: nat, jis: Jis)
    requires 1 <= col < 95 && 0x7a <= row <= 0x7e && ExtraSymbols(row - 0x7a, col) != 0
    requires row == 0x7c ==> !(0x1a <= col <= 0x1f) && !(0x38 <= col <= 0x55)
    ensures CharConv(EXTRA_SYMBOLS, row, col + 0x20, jis) == [ExtraSymbols(row - 0x7a, col)]
  {
    hide ExtraSymbols;
  }

  predicate Agree(key: Ucs, cell: Ucs) { cell != 0 && (cell == key <==> key !in BAD_EXTSYM) }

  lemma Row75(col: nat)
    requires Extsym75(col) != 0
    ensures col < 96 && Agree(Extsym75(col), ExtraKanji75(col))
  {
  }

  lemma Row76(col: nat)
    requires Extsym76(col) != 0
    ensures col <= 43 && Agree(Extsym76(col), ExtraKanji76(col))
  {
  }

  lemma Row7a(col: nat)
    requires Extsym7a(col) != 0
    ensures Agree(Extsym7a(col), ExtraSymbols7a(col))
  {
  }

  lemma Row7b(col: nat)
    requires Extsym7b(col) != 0
    ensures Agree(Extsym7b(col), ExtraSymbols7b(col))
  {
  }

  lemma Row7c(col: nat)
    requires Extsym7c(col) != 0
    ensures !(0x1a <= col <= 0x1f) && !(0x38 <= col <= 0x55)
    ensures Agree(Extsym7c(col), ExtraSymbols7c(col))
  {
  }

  lemma Row7d(col: nat)
    requires Extsym7d(col) != 0
    ensures Agree(Extsym7d(col), ExtraSymbols7d(col))
  {
  }

  lemma Row7e(col: nat)
    requires Extsym7e(col) != 0
    ensures Agree(Extsym7e(col), ExtraSymbols7e(col))
  {
  }

  function Plane1(code: nat, jis: Jis): Ucs { jis.from213(code / 256 + 0x100, code % 256) }

  function Plane2(code: nat, jis: Jis): Ucs { jis.from213(code / 256 + 0x200, code % 256) }

  // What is asked of the tables about one code point: that they are inverse to
  // one another.  Its JIS X 0213 code decodes to it, and if in plane 1, not in
  // plane 2 as well; its kana row is the Unicode kana block; and the binary
  // search finds an entry of the table.
  predicate Inverse(ch: Ucs, jis: Jis) {
    var jch := jis.to213(ch);
    && CodesInRange(ch, jis)
    && (jch != 0 ==> (if IsPlane2(jch) then Plane2(Seven(jch), jis) else Plane1(Seven(jch), jis)) == ch)
    && (jch != 0 && !IsPlane2(jch) ==> PlanesApart(Seven(jch), Seven(jch), jis))
    && (jis.to208(ch).Some? ==>
          var (b0, b1) := jis.to208(ch).value;
          && (b0 == 0x24 ==> ch == 0x3020 + b1 && b1 <= 0x73)
          && (b0 == 0x25 ==> ch == 0x3080 + b1 && b1 <= 0x76))
    && (jis.extsym(ch).Some? ==> ExtsymKey(jis.extsym(ch).value / 256, jis.extsym(ch).value % 256 - 0x20) == ch)
  }

  // About a base and a combining character: the composed code decodes to the
  // two, and in plane 2 to nothing that starts so.
  predicate PairInverse(base: Ucs, mark: Ucs, jis: Jis) {
    MayCompose(jis.to213(base)) && Composed(jis.to213(base), mark).Some? ==>
      var code := Composed(jis.to213(base), mark).value;
      var v := Plane1(code, jis);
      && 0 < v < 0x80 && jis.combining(v - 1) == (base, mark)
      && PlanesApart(Seven(jis.to213(base)), code, jis)
  }

  // code2 of plane 2 stands neither for the character of code1 of plane 1 nor
  // for a pair.
  predicate PlanesApart(code1: nat, code2: nat, jis: Jis) {
    var v := Plane2(code2, jis);
    IsCode(code1) && IsCode(code2) ==> v == 0 || (v >= 0x80 && v != Plane1(code1, jis))
  }

  // A character of JIS X 0208, but neither a kana nor handled before, that has
  // no code in JIS X 0213: it is encoded as two NULs.
  predicate IsBlank(ch: Ucs, jis: Jis) {
    && ch > 0xa0 && ToJisx0201(ch).None? && IsKanaPunc(ch).None?
    && jis.to213(ch) == 0 && jis.to208(ch).Some?
    && jis.to208(ch).value.0 != 0x24 && jis.to208(ch).value.0 != 0x25
  }

  lemma BlankIff(ch: Ucs, jis: Jis)
    requires CodesInRange(ch, jis)
    ensures IsBlank(ch, jis) <==> Classify(ch, jis) == Direct(BLANK)
  {
    assert Seven(0) == 0 && !MayCompose(0);
    hide Seven;
  }

  // A code point that nothing is read for: a blank, or a tag, which is passed over.
  predicate Vanishes(ch: Ucs, jis: Jis) { IsBlank(ch, jis) || Classify(ch, jis).Dropped? }

  // A code point that does not come back: it vanishes; or it is a backslash or
  // tilde, which decode to yen and overline; or one of the five extra symbols
  // that are listed with a wrong code.
  predicate IsLossy(ch: Ucs, jis: Jis) {
    || Vanishes(ch, jis)
    || ch == 0x5c || ch == 0x7e
    || (ch in BAD_EXTSYM && Classify(ch, jis).Direct? && Classify(ch, jis).u.ExtSym?)
  }

  // A piece of encodable text without NUL.
  predicate ProperPiece(p: Piece, jis: Jis) {
    match p
    case Single(ch) => ch != 0 && !Classify(ch, jis).Unencodable?
    case Pair(base, mark, code) => PairCode(base, mark, jis) == Some(code)
  }

  // The tables are inverse to one another at the piece.
  predicate PieceInverse(p: Piece, jis: Jis) {
    match p
    case Single(ch) => Inverse(ch, jis)
    case Pair(base, mark, _) => Inverse(base, jis) && PairInverse(base, mark, jis)
  }

  predicate LossyPiece(p: Piece, jis: Jis) { p.Single? && IsLossy(p.ch, jis) }

  predicate VanishingPiece(p: Piece, jis: Jis) { p.Single? && Vanishes(p.ch, jis) }

  // The unit of a piece that does not vanish.
  function PieceUnit(p: Piece, jis: Jis): Unit
    requires ProperPiece(p, jis) && !VanishingPiece(p, jis)
  {
    match p
    case Pair(_, _, code) => X0213(code, false)
    case Single(ch) =>
      match Classify(ch, jis)
      case Direct(u) => u
      case Buffer(prev) => Buffered(prev)
  }

  // cps is not longer than the text, and is nothing or starts otherwise.
  predicate TellsApart(cps: seq<Ucs>, text: seq<Ucs>) {
    |cps| <= |text| && (cps == [] || cps[0] != text[0])
  }

  // The glyph of u, a unit for the code point ch, is read as ch, or if lossy as
  // something else; and a plane-1 unit carries the JIS X 0213 code of ch.
  predicate ReadsAs(sh: Shadow, u: Unit, ch: Ucs, lossy: bool, jis: Jis) {
    && ValidUnit(u) && u != Ascii(0)
    && ProperGlyph(UnitGlyph(sh, u))
    && (if lossy then TellsApart(GlyphConv(UnitGlyph(sh, u), jis), [ch])
        else GlyphConv(UnitGlyph(sh, u), jis) == [ch])
    && (u.X0213? && !u.plane2 ==> u.code == Seven(jis.to213(ch)) && !IsPlane2(jis.to213(ch)))
  }

  lemma AsciiReads(sh: Shadow, ch: Ucs, b: Byte, jis: Jis)
    requires ch != 0 && ValidUnit(Ascii(b))
    requires (ch == b && ch <= 0xa0) || (ch == 0xa5 && b == 0x5c) || (ch == 0x203e && b == 0x7e)
    ensures ReadsAs(sh, Ascii(b), ch, ch == 0x5c || ch == 0x7e, jis)
  {
  }

  lemma HalfKataReads(sh: Shadow, ch: Ucs, jis: Jis)
    requires 0xff61 <= ch <= 0xff9f
    ensures ReadsAs(sh, HalfKata(ch - 0xfec0), ch, false, jis)
  {
  }

  lemma PuncReads(sh: Shadow, ch: Ucs, jis: Jis)
    requires IsKanaPunc(ch).Some?
    ensures ReadsAs(sh, Punc(IsKanaPunc(ch).value), ch, false, jis)
  {
  }

  // The conversions the JIS characters are read through.
  lemma JisConv(gset: Byte, code: nat, jis: Jis)
    requires IsCode(code)
    requires gset in {KANJI, JISX0213_1, JISX0213_2}
    requires gset == KANJI ==> code / 256 < 0x7a && !IsNonspacing(code)
    ensures ProperGlyph(Sym(gset, code / 256, code % 256))
    ensures CharConv(gset, code / 256, code % 256, jis) == ConvX0213(gset == JISX0213_2, code / 256, code % 256, jis)
  {
    hide ConvX0213;
  }

  lemma KanaConv(c: Byte, jis: Jis)
    requires 0x21 <= c <= 0x7e
    ensures ProperGlyph(Sym(HIRAGANA, c, 0)) && ProperGlyph(Sym(KATAKANA, c, 0))
    ensures c <= 0x73 ==> CharConv(HIRAGANA, c, 0, jis) == [0x3020 + c]
    ensures c <= 0x76 ==> CharConv(KATAKANA, c, 0, jis) == [0x3080 + c]
  {
  }

  // A unit that stands for ch: a kana by its row, or a JIS X 0213 code of ch.
  lemma JisUnit(sh: Shadow, u: Unit, ch: Ucs, jis: Jis)
    requires ch > 0xa0 && ValidUnit(u)
    requires match u
             case Hira(c) => c <= 0x73 && ch == 0x3020 + c
             case Kata(c) => c <= 0x76 && ch == 0x3080 + c
             case Kanji(code) => IsCode(code) && code / 256 < 0x7a && !IsNonspacing(code) && Plane1(code, jis) == ch
             case X0213(code, plane2) =>
               && (if plane2 then Plane2(code, jis) else Plane1(code, jis)) == ch
               && (!plane2 ==> code == Seven(jis.to213(ch)) && !IsPlane2(jis.to213(ch)))
             case _ => false
    ensures ReadsAs(sh, u, ch, false, jis)
  {
    hide CharConv, ProperGlyph;
    match u
    case Hira(c) => KanaConv(c, jis);
    case Kata(c) => KanaConv(c, jis);
    case Kanji(code) => JisConv(KANJI, code, jis);
    case X0213(code, plane2) => JisConv(if plane2 then JISX0213_2 else JISX0213_1, code, jis);
  }

  lemma BufferedReads(sh: Shadow, ch: Ucs, jis: Jis)
    requires Inverse(ch, jis) && ch > 0xa0 && ClassifyJis(ch, jis).Buffer?
    ensures ReadsAs(sh, Buffered(ClassifyJis(ch, jis).prev), ch, false, jis)
  {
    var jch := jis.to213(ch);
    assert jch != 0;
    hide ReadsAs;
    match jis.to208(ch)
    case Some((b0, b1)) => BufferedKanaReads(sh, ch, jch, b0, b1, jis);
    case None => BufferedHighReads(sh, ch, jch, jis);
  }

  lemma BufferedKanaReads(sh: Shadow, ch: Ucs, jch: nat, b0: Byte, b1: Byte, jis: Jis)
    requires 0x21 <= b1 && Seven(jch) == b0 * 256 + b1 && ch > 0xa0
    requires (b0 == 0x24 && ch == 0x3020 + b1 && b1 <= 0x73) || (b0 == 0x25 && ch == 0x3080 + b1 && b1 <= 0x76)
    ensures ReadsAs(sh, Buffered(Seven(jch)), ch, false, jis)
  {
    SevenOfSeven(jch);
    hide Seven, ReadsAs;
    JisUnit(sh, Buffered(Seven(jch)), ch, jis);
  }

  lemma BufferedHighReads(sh: Shadow, ch: Ucs, jch: nat, jis: Jis)
    requires IsCode(Seven(jch)) && Plane1(Seven(jch), jis) == ch > 0xa0
    requires jch == jis.to213(ch) && !IsPlane2(jch)
    ensures ReadsAs(sh, Buffered(0x10000 + Seven(jch)), ch, false, jis)
  {
    SevenOfSeven(jch);
    hide Seven, ReadsAs;
    JisUnit(sh, Buffered(0x10000 + Seven(jch)), ch, jis);
  }

  lemma JisReads(sh: Shadow, ch: Ucs, jis: Jis)
    requires Inverse(ch, jis) && ch > 0xa0 && ClassifyJis(ch, jis).Direct? && !ClassifyJis(ch, jis).u.ExtSym?
    requires ClassifyJis(ch, jis).u != BLANK
    ensures ReadsAs(sh, ClassifyJis(ch, jis).u, ch, false, jis)
  {
    var jch := jis.to213(ch);
    ClassifyJisValid(ch, jis);
    SevenOfSeven(jch);
    if jch < 0x10000 && !IsPlane2(jch) && !MayCompose(jch) {
      UnflaggedIsSeven(jch);
    }
    hide Seven, MayCompose, IsPlane2, ReadsAs;
    JisUnit(sh, ClassifyJis(ch, jis).u, ch, jis);
  }

  lemma ExtSymReads(sh: Shadow, ch: Ucs, code: nat, jis: Jis)
    requires IsCode(code) && ch != 0 && ExtsymKey(code / 256, code % 256 - 0x20) == ch
    ensures ReadsAs(sh, ExtSym(code), ch, ch in BAD_EXTSYM, jis)
  {
    hide CharConv, ExtsymKey;
    ExtsymIff(code / 256, code % 256 - 0x20, jis);
  }

  lemma ExtsymEntry(ch: Ucs, jis: Jis)
    requires Inverse(ch, jis) && ClassifyJis(ch, jis).Direct? && ClassifyJis(ch, jis).u.ExtSym?
    ensures var code := ClassifyJis(ch, jis).u.code;
            IsCode(code) && ExtsymKey(code / 256, code % 256 - 0x20) == ch
  {
    hide ExtsymKey, Seven;
  }

  // The code points read from a piece's glyph: the piece's own, exactly when it
  // is not lossy; and read in plane 2, never those.
  lemma PieceReads(sh: Shadow, p: Piece, jis: Jis)
    requires ProperPiece(p, jis) && PieceInverse(p, jis) && !VanishingPiece(p, jis)
    ensures var u := PieceUnit(p, jis);
            && PieceUnits(p, jis) == Chosen([u], true)
            && ValidUnit(u) && u != Ascii(0) && u != BLANK
            && ProperGlyph(UnitGlyph(sh, u))
            && (var cps := GlyphConv(UnitGlyph(sh, u), jis);
                if LossyPiece(p, jis) then TellsApart(cps, PieceText(p)) else cps == PieceText(p))
            && (u.X0213? && !u.plane2 ==>
                  TellsApart(ConvX0213(true, u.code / 256, u.code % 256, jis), PieceText(p)))
  {
    match p
    case Single(ch) => SinglePieceReads(sh, ch, jis);
    case Pair(base, mark, code) => PairReads(sh, base, mark, code, jis);
  }

  lemma SinglePieceReads(sh: Shadow, ch: Ucs, jis: Jis)
    requires ProperPiece(Single(ch), jis) && Inverse(ch, jis) && !Vanishes(ch, jis)
    ensures var u := PieceUnit(Single(ch), jis);
            && ReadsAs(sh, u, ch, IsLossy(ch, jis), jis) && u != BLANK
            && (u.X0213? && !u.plane2 ==> TellsApart(ConvX0213(true, u.code / 256, u.code % 256, jis), [ch]))
  {
    BlankIff(ch, jis);
    SingleReads(sh, ch, jis);
    var u, jch := PieceUnit(Single(ch), jis), jis.to213(ch);
    hide ReadsAs, IsLossy, Classify, Vanishes, UnitGlyph, GlyphConv, Buffered;
    NotBlank(ch, jis);
    if u.X0213? && !u.plane2 {
      CodeOf(sh, u, ch, IsLossy(ch, jis), jis);
    }
  }

  lemma NotBlank(ch: Ucs, jis: Jis)
    requires ProperPiece(Single(ch), jis) && CodesInRange(ch, jis) && !Vanishes(ch, jis)
    ensures PieceUnit(Single(ch), jis) != BLANK
  {
    BlankIff(ch, jis);
    ClassifyValid(ch, jis);
    hide IsBlank, CodesInRange, ClassifyJis;
    if Classify(ch, jis).Buffer? { SevenOfSeven(Classify(ch, jis).prev); }
  }

  lemma CodeOf(sh: Shadow, u: Unit, ch: Ucs, lossy: bool, jis: Jis)
    requires ReadsAs(sh, u, ch, lossy, jis) && Inverse(ch, jis) && u.X0213? && !u.plane2
    ensures TellsApart(ConvX0213(true, u.code / 256, u.code % 256, jis), [ch])
  {
    assert Seven(0) == 0;
    hide UnitGlyph, GlyphConv, Seven, MayCompose;
  }

  lemma PairReads(sh: Shadow, base: Ucs, mark: Ucs, code: nat, jis: Jis)
    requires Inverse(base, jis) && PairInverse(base, mark, jis) && PairCode(base, mark, jis) == Some(code)
    ensures IsCode(code)
    ensures ProperGlyph(UnitGlyph(sh, X0213(code, false)))
    ensures GlyphConv(UnitGlyph(sh, X0213(code, false)), jis) == [base, mark]
    ensures TellsApart(ConvX0213(true, code / 256, code % 256, jis), [base, mark])
  {
    var prev := Classify(base, jis).prev;
    var jch := jis.to213(base);
    BaseInverse(base, jis);
    SevenOfSeven(jch);
    hide CharConv, IsCode, Classify, Seven, CompTable, MayCompose, IsPlane2, Inverse, FindBase, CompLen, CompStart,
      ProperGlyph, PlanesApart;
    assert Composed(prev, mark) == Composed(jch, mark);
    ComposedIsCode(prev, mark);
    ComposedReads(sh, base, mark, Seven(jch), code, jis);
  }

  lemma ComposedReads(sh: Shadow, base: Ucs, mark: Ucs, baseCode: nat, code: nat, jis: Jis)
    requires IsCode(code) && PlanesApart(baseCode, code, jis) && IsCode(baseCode) && base == Plane1(baseCode, jis)
    requires var v := Plane1(code, jis); 0 < v < 0x80 && jis.combining(v - 1) == (base, mark)
    ensures ProperGlyph(UnitGlyph(sh, X0213(code, false)))
    ensures GlyphConv(UnitGlyph(sh, X0213(code, false)), jis) == [base, mark]
    ensures TellsApart(ConvX0213(true, code / 256, code % 256, jis), [base, mark])
  {
    JisConv(JISX0213_1, code, jis);
    hide CharConv, ProperGlyph;
  }

  lemma BufferedBase(base: Ucs, jis: Jis)
    requires CodesInRange(base, jis) && ClassifyJis(base, jis).Buffer?
    ensures MayCompose(jis.to213(base)) && jis.to213(base) != 0 && !IsPlane2(jis.to213(base))
  {
    assert !MayCompose(0);
  }

  lemma BaseInverse(base: Ucs, jis: Jis)
    requires Inverse(base, jis) && Classify(base, jis).Buffer?
    ensures MayCompose(jis.to213(base)) && Seven(Classify(base, jis).prev) == Seven(jis.to213(base))
    ensures IsCode(Seven(jis.to213(base))) && base == Plane1(Seven(jis.to213(base)), jis)
  {
    hide Seven, ClassifyJis, Buffered;
    ClassifyValid(base, jis);
    BufferedBase(base, jis);
  }

  lemma SingleReads(sh: Shadow, ch: Ucs, jis: Jis)
    requires ProperPiece(Single(ch), jis) && Inverse(ch, jis) && !Vanishes(ch, jis)
    ensures ReadsAs(sh, PieceUnit(Single(ch), jis), ch, IsLossy(ch, jis), jis)
  {
    BlankIff(ch, jis);
    hide ClassifyJis, Inverse, ReadsAs, IsBlank, UnitGlyph, GlyphConv, Seven;
    if ch <= 0xa0 {
      AsciiReads(sh, ch, ch, jis);
    } else if ToJisx0201(ch).Some? {
      if ToJisx0201(ch).value < 0x80 {
        AsciiReads(sh, ch, ToJisx0201(ch).value, jis);
      } else {
        HalfKataReads(sh, ch, jis);
      }
    } else if IsKanaPunc(ch).Some? {
      PuncReads(sh, ch, jis);
    } else {
      OtherReads(sh, ch, jis);
    }
  }

  lemma OtherReads(sh: Shadow, ch: Ucs, jis: Jis)
    requires ch > 0xa0 && Inverse(ch, jis)
    requires match ClassifyJis(ch, jis) case Direct(u) => u != BLANK case Buffer(_) => true case _ => false
    ensures match ClassifyJis(ch, jis)
            case Direct(u) => ReadsAs(sh, u, ch, u.ExtSym? && ch in BAD_EXTSYM, jis)
            case Buffer(prev) => ReadsAs(sh, Buffered(prev), ch, false, jis)
            case _ => true
  {
    hide ClassifyJis, Inverse, ReadsAs, Buffered, BAD_EXTSYM;
    if ClassifyJis(ch, jis).Buffer? {
      BufferedReads(sh, ch, jis);
    } else if ClassifyJis(ch, jis).u.ExtSym? {
      ExtsymEntry(ch, jis);
      ExtSymReads(sh, ch, ClassifyJis(ch, jis).u.code, jis);
    } else {
      JisReads(sh, ch, jis);
    }
  }
}
