// What the encoder of contrib/gconv/arib-std-b24.c puts out, byte for byte: for
// each kind of character under each shadow, and for texts of one character.

module AribWireOut {
  import opened Base
  import opened AribDecoder
  import opened AribCharConv
  import opened AribEncoder
  import opened AribSimulation

  // ----- Kana -----

  // A byte is all it takes in the set that is invoked to GR; another that is
  // still designated takes a locking shift, and only one that is not, a
  // designation.
  lemma HiraganaBytes(sh: Shadow, c: Byte)
    requires 0x21 <= c <= 0x7e
    ensures sh.g2 == HIRAGANA_idx && sh.gr == 0 ==> Emit(sh, Hira(c)) == Emission([0x80 + c], sh)
    ensures sh.g2 == HIRAGANA_idx && sh.gr == 1 ==>
              Emit(sh, Hira(c)) == Emission([0x1b, 0x7d, 0x80 + c], sh.(gr := 0))
    ensures sh.g2 != HIRAGANA_idx && sh.gr == 0 ==>
              Emit(sh, Hira(c)) == Emission([0x1b, 0x2a, 0x30, 0x80 + c], sh.(g2 := HIRAGANA_idx))
    ensures sh.g2 != HIRAGANA_idx && sh.gr == 1 ==>
              Emit(sh, Hira(c)) == Emission([0x1b, 0x2a, 0x30, 0x1b, 0x7d, 0x80 + c], sh.(g2 := HIRAGANA_idx, gr := 0))
  {
  }

  lemma KatakanaBytes(sh: Shadow, c: Byte)
    requires 0x21 <= c <= 0x7e
    ensures sh.g3 == KATAKANA_idx && sh.gr == 1 ==> Emit(sh, Kata(c)) == Emission([0x80 + c], sh)
    ensures sh.g3 == KATAKANA_idx && sh.gr == 0 ==>
              Emit(sh, Kata(c)) == Emission([0x1b, 0x7c, 0x80 + c], sh.(gr := 1))
    ensures sh.g3 != KATAKANA_idx && sh.gr == 1 ==>
              Emit(sh, Kata(c)) == Emission([0x1b, 0x2b, 0x31, 0x80 + c], sh.(g3 := KATAKANA_idx))
    ensures sh.g3 != KATAKANA_idx && sh.gr == 0 ==>
              Emit(sh, Kata(c)) == Emission([0x1b, 0x2b, 0x31, 0x1b, 0x7c, 0x80 + c], sh.(g3 := KATAKANA_idx, gr := 1))
  {
  }

  lemma HalfWidthBytes(sh: Shadow, ch: Byte)
    requires 0xa1 <= ch <= 0xdf
    ensures sh.g3 == JIS0201_KATA_idx && sh.gr == 1 ==> Emit(sh, HalfKata(ch)) == Emission([ch], sh)
    ensures sh.g3 == JIS0201_KATA_idx && sh.gr == 0 ==>
              Emit(sh, HalfKata(ch)) == Emission([0x1b, 0x7c, ch], sh.(gr := 1))
    ensures sh.g3 != JIS0201_KATA_idx && sh.gr == 1 ==>
              Emit(sh, HalfKata(ch)) == Emission([0x1b, 0x2b, 0x49, ch], sh.(g3 := JIS0201_KATA_idx))
    ensures sh.g3 != JIS0201_KATA_idx && sh.gr == 0 ==>
              Emit(sh, HalfKata(ch))
              == Emission([0x1b, 0x2b, 0x49, 0x1b, 0x7c, ch], sh.(g3 := JIS0201_KATA_idx, gr := 1))
  {
  }

  // A mark that both sets of kana have goes out in the set in GR if that is one
  // of the two, else in the one that is designated, katakana if both are, and in
  // katakana, newly designated, if neither is.
  lemma SharedMarkBytes(sh: Shadow, i: nat)
    requires 4 <= i < 10
    ensures (sh.gr == 0 && sh.g2 == HIRAGANA_idx) || (sh.gr == 1 && sh.g3 == KATAKANA_idx) ==>
              Emit(sh, Punc(i)) == Emission([0xf5 + i], sh)
    ensures sh.gr == 0 && sh.g2 != HIRAGANA_idx && sh.g3 == KATAKANA_idx ==>
              Emit(sh, Punc(i)) == Emission([0x1b, 0x7c, 0xf5 + i], sh.(gr := 1))
    ensures sh.gr == 1 && sh.g2 == HIRAGANA_idx && sh.g3 != KATAKANA_idx ==>
              Emit(sh, Punc(i)) == Emission([0x1b, 0x7d, 0xf5 + i], sh.(gr := 0))
    ensures sh.gr == 0 && sh.g2 != HIRAGANA_idx && sh.g3 != KATAKANA_idx ==>
              Emit(sh, Punc(i)) == Emission([0x1b, 0x2b, 0x31, 0x1b, 0x7c, 0xf5 + i], sh.(g3 := KATAKANA_idx, gr := 1))
    ensures sh.gr == 1 && sh.g2 != HIRAGANA_idx && sh.g3 != KATAKANA_idx ==>
              Emit(sh, Punc(i)) == Emission([0x1b, 0x2b, 0x31, 0xf5 + i], sh.(g3 := KATAKANA_idx))
  {
  }

  // The iteration marks of one set go out in that set.
  lemma IterationMarkBytes(sh: Shadow, i: nat)
    requires i < 4
    ensures Emit(sh, Punc(i)) == if i < 2 then Emit(sh, Hira(0x77 + i)) else Emit(sh, Kata(0x75 + i))
  {
  }

  // So a shared mark costs a designation if and only if neither set of kana is
  // designated, and one byte behind a kana; a decoder in step reads it in the
  // set of that kana.
  lemma SharedMarkDesignatesIff(sh: Shadow, i: nat)
    requires 4 <= i < 10
    ensures |Emit(sh, Punc(i)).bytes| > 3 <==> sh.g2 != HIRAGANA_idx && sh.g3 != KATAKANA_idx
    ensures Emit(sh, Punc(i)).sh.(gr := sh.gr) == sh <==> sh.g2 == HIRAGANA_idx || sh.g3 == KATAKANA_idx
  {
    hide Emit;
    SharedMarkBytes(sh, i);
  }

  lemma SharedMarkRead(sh: Shadow, stale: bool, d: State, i: nat)
    requires InSync(sh, stale, d) && 4 <= i < 10
    ensures var hiragana := sh.g2 == HIRAGANA_idx && (sh.gr == 0 || sh.g3 != KATAKANA_idx);
            Run(d, Emit(sh, Punc(i)).bytes).out == [Sym(if hiragana then 0x30 else 0x31, 0x75 + i, 0)]
  {
    hide Run, Emit, InSync;
    Simulate(sh, stale, d, Punc(i));
    SharedMarkGlyph(sh, i);
  }

  lemma SharedMarkGlyph(sh: Shadow, i: nat)
    requires 4 <= i < 10
    ensures var hiragana := sh.g2 == HIRAGANA_idx && (sh.gr == 0 || sh.g3 != KATAKANA_idx);
            UnitGlyph(sh, Punc(i)) == Sym(if hiragana then 0x30 else 0x31, 0x75 + i, 0)
  {
  }

  lemma MarkBehindKana(sh: Shadow, stale: bool, d: State, c: Byte, i: nat)
    requires InSync(sh, stale, d) && 0x21 <= c <= 0x7e && 4 <= i < 10
    ensures var x, y := Emit(sh, Hira(c)), Emit(sh, Kata(c));
            && Emit(x.sh, Punc(i)).bytes == [0xf5 + i]
            && Run(Run(d, x.bytes).st, [0xf5 + i]).out == [Sym(0x30, 0x75 + i, 0)]
            && Emit(y.sh, Punc(i)).bytes == [0xf5 + i]
            && Run(Run(d, y.bytes).st, [0xf5 + i]).out == [Sym(0x31, 0x75 + i, 0)]
  {
    hide Run, InSync;
    var x, y := Emit(sh, Hira(c)), Emit(sh, Kata(c));
    Simulate(sh, stale, d, Hira(c));
    Simulate(sh, stale, d, Kata(c));
    SharedMarkBytes(x.sh, i);
    SharedMarkBytes(y.sh, i);
    SharedMarkRead(x.sh, StaleAfter(stale, UnitGlyph(sh, Hira(c))), Run(d, x.bytes).st, i);
    SharedMarkRead(y.sh, StaleAfter(stale, UnitGlyph(sh, Kata(c))), Run(d, y.bytes).st, i);
  }

  // ----- The rest -----

  lemma AsciiBytes(sh: Shadow, ch: Byte)
    requires ValidUnit(Ascii(ch))
    ensures 0x21 <= ch <= 0x7e ==>
              Emit(sh, Ascii(ch)) == if sh.gl == 1 then Emission([ch], sh) else Emission([0x0e, ch], sh.(gl := 1))
    ensures ch in {0x08, 0x0d, 0x20, 0x7f, 0xa0} ==> Emit(sh, Ascii(ch)) == Emission([ch], sh)
    ensures ch in {0x00, 0x0a} ==>
              Emit(sh, Ascii(ch)) == Emission([ch], Shadow(0, 0, HIRAGANA_idx, KATAKANA_idx))
  {
  }

  lemma KanjiBytes(sh: Shadow, hi: Byte, lo: Byte)
    requires 0x21 <= hi <= 0x7e && 0x21 <= lo <= 0x7e
    ensures Emit(sh, Kanji(hi * 256 + lo))
         == if sh.gl == 0 then Emission([hi, lo], sh) else Emission([0x0f, hi, lo], sh.(gl := 0))
  {
  }

  // The plane is designated to G2 unless it is noted down there; what is noted
  // down is plane 1 in any case.  With G3 in GR, a single shift is put in front.
  lemma Jisx0213Bytes(sh: Shadow, hi: Byte, lo: Byte, plane2: bool)
    requires 0x21 <= hi <= 0x7e && 0x21 <= lo <= 0x7e
    ensures var e := Emit(sh, X0213(hi * 256 + lo, plane2));
            var pair := if sh.gr == 0 then [0x80 + hi, 0x80 + lo] else [0x19, hi, lo];
            if sh.g2 == (if plane2 then JISX0213_2_idx else JISX0213_1_idx) then e == Emission(pair, sh)
            else e == Emission([0x1b, 0x24, 0x2a, if plane2 then 0x3a else 0x39] + pair, sh.(g2 := JISX0213_1_idx))
  {
  }

  lemma ExtsymBytes(sh: Shadow, hi: Byte, lo: Byte)
    requires 0x21 <= hi <= 0x7e && 0x21 <= lo <= 0x7e
    ensures var e := Emit(sh, ExtSym(hi * 256 + lo));
            var pair := if sh.gr == 1 then [0x80 + hi, 0x80 + lo] else [0x1d, hi, lo];
            if sh.g3 == EXTRA_SYMBOLS_idx then e == Emission(pair, sh)
            else e == Emission([0x1b, 0x24, 0x2b, 0x3b] + pair, sh.(g3 := EXTRA_SYMBOLS_idx))
  {
  }

  // A run of hiragana and its marks takes a byte a character.
  function InHiragana(u: Unit): (b: Byte)
    requires ValidUnit(u) && (u.Hira? || (u.Punc? && (u.i < 2 || u.i >= 4)))
  {
    match u
    case Hira(c) => 0x80 + c
    case Punc(i) => if i < 2 then 0xf7 + i else 0xf5 + i
  }

  lemma {:induction false} HiraganaRun(sh: Shadow, us: seq<Unit>)
    requires AllValid(us) && sh.gr == 0 && sh.g2 == HIRAGANA_idx
    requires forall u <- us :: u.Hira? || (u.Punc? && (u.i < 2 || u.i >= 4))
    ensures EmitAll(sh, us).sh == sh && |EmitAll(sh, us).bytes| == |us|
    ensures forall k :: 0 <= k < |us| ==> us[k] in us && EmitAll(sh, us).bytes[k] == InHiragana(us[k])
    decreases |us|
  {
    if us != [] {
      assert us[0] in us && forall u <- us[1..] :: u in us;
      assert Emit(sh, us[0]) == Emission([InHiragana(us[0])], sh);
      hide Emit, InHiragana, ValidUnit;
      HiraganaRun(sh, us[1..]);
    }
  }

  // ----- Composition -----

  // Base, combining character, and the code of the two in plane 1.
  const PAIRS: seq<(nat, Ucs, nat)> := [
    (0x2b64, 0x02e5, 0x2b65), (0x2b60, 0x02e9, 0x2b66), (0x295c, 0x0300, 0x2b44), (0x2b38, 0x0300, 0x2b48),
    (0x2b37, 0x0300, 0x2b4a), (0x2b30, 0x0300, 0x2b4c), (0x2b43, 0x0300, 0x2b4e), (0x2b38, 0x0301, 0x2b49),
    (0x2b37, 0x0301, 0x2b4b), (0x2b30, 0x0301, 0x2b4d), (0x2b43, 0x0301, 0x2b4f), (0x242b, 0x309a, 0x2477),
    (0x242d, 0x309a, 0x2478), (0x242f, 0x309a, 0x2479), (0x2431, 0x309a, 0x247a), (0x2433, 0x309a, 0x247b),
    (0x252b, 0x309a, 0x2577), (0x252d, 0x309a, 0x2578), (0x252f, 0x309a, 0x2579), (0x2531, 0x309a, 0x257a),
    (0x2533, 0x309a, 0x257b), (0x253b, 0x309a, 0x257c), (0x2544, 0x309a, 0x257d), (0x2548, 0x309a, 0x257e),
    (0x2675, 0x309a, 0x2678)
  ]

  lemma PairEntry(k: nat)
    requires k < 25
    ensures |PAIRS| == 25 && CompTable(k) == (PAIRS[k].0, PAIRS[k].2)
    ensures forall mark :: mark == PAIRS[k].1 <==> CompStart(mark) <= k < CompStart(mark) + CompLen(mark)
  {
  }

  lemma OneEntry(mark: Ucs, j: nat, k: nat)
    requires CompStart(mark) <= j <= k < CompStart(mark) + CompLen(mark) && CompTable(j).0 == CompTable(k).0
    ensures j == k
  {
  }

  // The search finds the code of a base and a combining character, and of no
  // other two.
  lemma ComposedIff(prev: nat, mark: Ucs, code: nat)
    ensures Composed(prev, mark) == Some(code) <==> (Seven(prev), mark, code) in PAIRS
  {
    hide CompTable, CompStart, CompLen, Seven, PAIRS, FindBase;
    PairCount();
    var found := FindBase(CompStart(mark), CompLen(mark), Seven(prev));
    if found.Some? { PairEntry(found.value); }
    if (Seven(prev), mark, code) in PAIRS {
      var k :| 0 <= k < |PAIRS| && PAIRS[k] == (Seven(prev), mark, code);
      PairEntry(k);
      if found.value <= k { OneEntry(mark, found.value, k); } else { OneEntry(mark, k, found.value); }
    }
  }

  lemma PairCount()
    ensures |PAIRS| == 25
  {
  }
}
