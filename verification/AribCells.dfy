// What the cells of the graphic sets of contrib/gconv/arib-std-b24.c stand for, by
// code and code point, where no table of glibc is asked.

module AribCells {
  import opened Base
  import opened AribDecoder
  import opened AribTables
  import opened AribCharConv
  import opened AribText

  // The code of a set is read as these code points, whatever glibc's tables say.
  predicate Shows(gset: Byte, code: nat, cps: seq<Ucs>, jis: Jis) {
    && code < 0x8000
    && ProperGlyph(Sym(gset, code / 256, code % 256))
    && CharConv(gset, code / 256, code % 256, jis) == cps
  }

  // ----- Two-byte cells of the decoder's own -----

  // The table of non-spacing marks of the encoder, ucs4_to_nonsp_kanji, is undone
  // by the decoder's, in both sets that reach it.
  lemma NonspacingCells(gset: Byte, jis: Jis)
    requires gset == 0x42 || gset == 0x3b
    ensures Shows(gset, 0x227e, [0x20dd], jis)
    ensures Shows(gset, 0x212e, [0x0300], jis) && Shows(gset, 0x212d, [0x0301], jis)
    ensures Shows(gset, 0x2130, [0x0302], jis) && Shows(gset, 0x2131, [0x0304], jis)
    ensures Shows(gset, 0x212f, [0x0308], jis) && Shows(gset, 0x2132, [0x0332], jis)
  {
  }

  lemma SmallKanjiCells(gset: Byte, jis: Jis)
    requires gset == 0x42 || gset == 0x3b
    ensures Shows(gset, 0x7c3a, [0x6c0f], jis) && Shows(gset, 0x7c3b, [0x526f], jis)
    ensures Shows(gset, 0x7c3c, [0x5143], jis) && Shows(gset, 0x7c3d, [0x6545], jis)
    ensures Shows(gset, 0x7c3e, [0x52ed], jis) && Shows(gset, 0x7c3f, [0x65b0], jis)
  {
  }

  // The abbreviations of musical instruments, from code 0x7c58 on.
  const INSTRUMENTS: seq<string> := [
    "(vn)", "(ob)", "(cb)", "(ce", "mb)", "(hp)", "(br)", "(p)", "(s)", "(ms)",
    "(t)", "(bs)", "(b)", "(tb)", "(vp)", "(ds)", "(ag)", "(eg)", "(vo)", "(fl)",
    "(ke", "y)", "(sa", "x)", "(sy", "n)", "(or", "g)", "(pe", "r)"]

  function Codes(s: string): seq<Ucs> { seq(|s|, i requires 0 <= i < |s| => s[i] as int) }

  lemma InstrumentCodes(i: nat)
    requires i < 30
    ensures Codes(INSTRUMENTS[i]) == MusicSymbol(i)
  {
    if i < 8 {
    } else if i < 15 {
    } else if i < 22 {
    } else {
    }
  }

  lemma MusicCell(gset: Byte, i: nat, jis: Jis)
    requires (gset == 0x42 || gset == 0x3b) && i < 30
    ensures Shows(gset, 0x7c58 + i, Codes(INSTRUMENTS[i]), jis)
  {
    hide MusicSymbol, Codes, INSTRUMENTS;
    InstrumentCodes(i);
  }

  // Whether a cell of the symbol rows has a code point: those of the kanji set
  // are those of the extra symbols, and have one if and only if the encoder's
  // list of extra symbols has the code, small kanji and instruments apart.
  lemma SymbolCellIff(gset: Byte, row: Byte, col: nat, jis: Jis)
    requires (gset == 0x42 || gset == 0x3b) && 0x7a <= row <= 0x7e && col < 96
    ensures CharConv(gset, row, 0x20 + col, jis) == CharConv(0x3b, row, 0x20 + col, jis)
    ensures CharConv(gset, row, 0x20 + col, jis) != []
       <==> ExtsymKey(row, col) != 0 || (row == 0x7c && (0x1a <= col <= 0x1f || 0x38 <= col <= 0x55))
  {
    hide ExtsymKey, ExtraSymbols, MusicSymbol;
    if 1 <= col < 95 && ExtsymKey(row, col) != 0 {
      ExtsymSymbolAgrees(row, col);
    } else if !(row == 0x7c && (0x1a <= col <= 0x1f || 0x38 <= col <= 0x55)) {
      LastColumns(row, col);
      UnlistedSymbol(row, col);
    }
  }

  lemma LastColumns(row: Byte, col: nat)
    requires 0x7a <= row <= 0x7e
    ensures col == 0 || 95 <= col ==> ExtsymKey(row, col) == 0
  {
  }

  lemma UnlistedSymbol(row: Byte, col: nat)
    requires 0x7a <= row <= 0x7e && col < 96 && ExtsymKey(row, col) == 0
    requires !(row == 0x7c && (0x1a <= col <= 0x1f || 0x38 <= col <= 0x55))
    ensures ExtraSymbols(row - 0x7a, col) == 0
  {
    hide Extsym7a, Extsym7b, Extsym7c, Extsym7d, Extsym7e;
    hide ExtraSymbols7a, ExtraSymbols7b, ExtraSymbols7c, ExtraSymbols7d, ExtraSymbols7e;
    if row == 0x7a {
      Unlisted7a(col);
    } else if row == 0x7b {
      Unlisted7b(col);
    } else if row == 0x7c {
      Unlisted7c(col);
    } else if row == 0x7d {
      Unlisted7d(col);
    } else {
      Unlisted7e(col);
    }
  }

  lemma Unlisted7a(col: nat)
    requires Extsym7a(col) == 0
    ensures ExtraSymbols7a(col) == 0
  {
  }

  lemma Unlisted7b(col: nat)
    requires Extsym7b(col) == 0
    ensures ExtraSymbols7b(col) == 0
  {
  }

  lemma Unlisted7c(col: nat)
    requires Extsym7c(col) == 0 && !(0x1a <= col <= 0x1f || 0x38 <= col <= 0x55)
    ensures ExtraSymbols7c(col) == 0
  {
  }

  lemma Unlisted7d(col: nat)
    requires Extsym7d(col) == 0
    ensures ExtraSymbols7d(col) == 0
  {
  }

  lemma Unlisted7e(col: nat)
    requires Extsym7e(col) == 0
    ensures ExtraSymbols7e(col) == 0
  {
  }

  // The two kanji rows that only the set of extra symbols has: all cells have a
  // code point, those the list does not have the code point 0.
  lemma ExtraKanjiCellIff(row: Byte, col: nat, jis: Jis)
    requires (row == 0x75 && col < 96) || (row == 0x76 && col <= 43)
    ensures var cps := CharConv(0x3b, row, 0x20 + col, jis);
            |cps| == 1 && (cps[0] == 0 <==> ExtsymKey(row, col) == 0)
  {
    hide ExtraKanji75, ExtraKanji76, Extsym75, Extsym76;
    if row == 0x75 { Unlisted75(col); } else { Unlisted76(col); }
  }

  lemma Unlisted75(col: nat)
    ensures Extsym75(col) == 0 <==> ExtraKanji75(col) == 0
  {
  }

  lemma Unlisted76(col: nat)
    ensures Extsym76(col) == 0 <==> ExtraKanji76(col) == 0
  {
  }

  // ----- Cells that glibc's tables decide -----

  predicate IsOwnCell(gset: Byte, c1: Byte, c2: Byte) {
    || (gset == 0x3b && (c1 == 0x75 || (c1 == 0x76 && c2 <= 0x4b)))
    || ((gset == 0x42 || gset == 0x3b)
        && (0x7a <= c1 <= 0x7e || (c1 == 0x22 && c2 == 0x7e) || (c1 == 0x21 && 0x2d <= c2 <= 0x32)))
  }

  // Kanji and extra symbols fall back on plane 1 of JIS X 0213; a small number
  // is the place of a pair in the table of combining characters.
  lemma PlaneCell(gset: Byte, c1: Byte, c2: Byte, jis: Jis)
    requires gset in {0x42, 0x3b, 0x39, 0x3a} && 0x21 <= c1 <= 0x7e && 0x20 <= c2 <= 0x7f
    requires !IsOwnCell(gset, c1, c2)
    ensures var ch := jis.from213((if gset == 0x3a then 0x200 else 0x100) + c1, c2);
            CharConv(gset, c1, c2, jis)
            == if ch == 0 then []
               else if ch < 0x80 then [jis.combining(ch - 1).0, jis.combining(ch - 1).1]
               else [ch]
  {
  }

  // ----- One-byte cells -----

  lemma LatinCells(gset: Byte, c: Byte, jis: Jis)
    requires gset in {0x40, 0x4a, 0x36} && 0x21 <= c <= 0x7e
    ensures Shows(gset, c * 256, [if c == 0x5c then 0xa5 else if c == 0x7e then 0x203e else c], jis)
  {
  }

  // Hiragana, from U+3041 on, with a gap of three cells, and its marks.
  lemma HiraganaCells(gset: Byte, c: Byte, jis: Jis)
    requires (gset == 0x30 || gset == 0x37) && 0x21 <= c <= 0x7e
    ensures c <= 0x73 ==> Shows(gset, c * 256, [0x3041 + (c - 0x21)], jis)
    ensures 0x74 <= c <= 0x76 ==> Shows(gset, c * 256, [], jis)
    ensures c == 0x77 ==> Shows(gset, c * 256, [0x309d], jis)
    ensures c == 0x78 ==> Shows(gset, c * 256, [0x309e], jis)
    ensures c >= 0x79 ==> Shows(gset, c * 256, [SharedMark(c)], jis)
  {
  }

  // Katakana, from U+30A1 on, and its marks.
  lemma KatakanaCells(gset: Byte, c: Byte, jis: Jis)
    requires (gset == 0x31 || gset == 0x38) && 0x21 <= c <= 0x7e
    ensures c <= 0x76 ==> Shows(gset, c * 256, [0x30a1 + (c - 0x21)], jis)
    ensures c == 0x77 ==> Shows(gset, c * 256, [0x30fd], jis)
    ensures c == 0x78 ==> Shows(gset, c * 256, [0x30fe], jis)
    ensures c >= 0x79 ==> Shows(gset, c * 256, [SharedMark(c)], jis)
  {
  }

  // The marks that both have.
  function SharedMark(c: Byte): Ucs
    requires 0x79 <= c <= 0x7e
  {
    [0x30fc, 0x3002, 0x300c, 0x300d, 0x3001, 0x30fb][c - 0x79]
  }

  lemma HalfWidthCells(c: Byte, jis: Jis)
    requires 0x21 <= c <= 0x7e
    ensures Shows(0x49, c * 256, if c <= 0x5f then [0xff61 + (c - 0x21)] else [], jis)
  {
  }

  // Mosaics, downloaded characters and macros have no code points of their own.
  lemma ReplacedCells(gset: Byte, c: Byte, e: Byte, jis: Jis)
    requires 0x32 <= gset <= 0x35 || 0xc0 <= gset <= 0xcf || gset == 0xf0
    requires 0x21 <= c <= 0x7e && 0x20 <= e <= 0x7f
    ensures Shows(gset, if gset == 0xc0 then c * 256 + e else c * 256, [0xfffd], jis)
  {
  }

  lemma ControlCells(b: Byte, jis: Jis)
    ensures GlyphConv(Through(b), jis) == [b as Ucs] && GlyphConv(Unknown, jis) == [0xfffd]
  {
  }
}
