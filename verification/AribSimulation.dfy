// The decoder follows the encoder: after the bytes of any units without NUL,
// the decoder's state is what the encoder's shadow says, except that G2 may
// hold plane 2 of JIS X 0213 where the shadow says plane 1.  Kanji code 0, which
// goes out as two NULs, is passed over.

module AribSimulation {
  import opened Base
  import opened AribDecoder
  import opened AribEncoder

  function SetOf(idx: Idx): Byte {
    match idx
    case KANJI_idx => KANJI
    case ASCII_idx => ASCII
    case HIRAGANA_idx => HIRAGANA
    case KATAKANA_idx => KATAKANA
    case JIS0201_KATA_idx => JIS0201_KATA
    case JISX0213_1_idx => JISX0213_1
    case JISX0213_2_idx => JISX0213_2
    case EXTRA_SYMBOLS_idx => EXTRA_SYMBOLS
  }

  // The shadows the encoder can have.
  predicate ProperShadow(sh: Shadow) {
    && sh.g2 in {HIRAGANA_idx, JISX0213_1_idx}
    && sh.g3 in {KATAKANA_idx, JIS0201_KATA_idx, EXTRA_SYMBOLS_idx}
  }

  // The decoder is in the state the shadow describes, but for G2, where stale
  // says that plane 2 is designated and the shadow believes it is plane 1.
  predicate InSync(sh: Shadow, stale: bool, d: State) {
    && ProperShadow(sh)
    && (stale ==> sh.g2 == JISX0213_1_idx)
    && d.mode == NORMAL && d.ss == 0
    && d.gl == sh.gl && d.gr == sh.gr + 2
    && d.g == [KANJI, ASCII, if stale then JISX0213_2 else SetOf(sh.g2), SetOf(sh.g3)]
  }

  // The glyph a unit stands for, given the shadow it is emitted under.
  function UnitGlyph(sh: Shadow, u: Unit): Glyph
    requires ValidUnit(u)
  {
    match u
    case Ascii(ch) => if ch in {0, LF, CR, BS, 0x20, 0x7f, 0xa0} then Through(ch) else Sym(ASCII, ch, 0)
    case HalfKata(ch) => Sym(JIS0201_KATA, ch - 0x80, 0)
    case Kata(c) => Sym(KATAKANA, c, 0)
    case Hira(c) => Sym(HIRAGANA, c, 0)
    case Punc(i) => Sym(if PuncIsHiragana(sh, i) then HIRAGANA else KATAKANA, PuncCode(i), 0)
    case Kanji(code) => Sym(KANJI, code / 256, code % 256)
    case X0213(code, plane2) => Sym(if plane2 then JISX0213_2 else JISX0213_1, code / 256, code % 256)
    case ExtSym(code) => Sym(EXTRA_SYMBOLS, code / 256, code % 256)
  }

  // The glyphs of a run of units.
  function Glyphs(sh: Shadow, us: seq<Unit>): seq<Glyph>
    requires AllValid(us)
    decreases |us|
  {
    if us == [] then [] else [UnitGlyph(sh, us[0])] + Glyphs(Emit(sh, us[0]).sh, us[1..])
  }

  // Whether G2 is stale behind a glyph that was correctly decoded.
  predicate StaleAfter(stale: bool, g: Glyph) {
    match g
    case Sym(gset, _, _) => gset == JISX0213_2 || (stale && gset != HIRAGANA)
    case Through(b) => stale && b != LF
    case Unknown => stale
  }

  // ----- Short runs -----

  lemma Run1(s: State, a: Byte)
    ensures var r := Run(s, [a]);
            r.st == Step(s, a).st && r.out == Step(s, a).out && r.ok == Step(s, a).ok
  {
    hide Step;
    var input: seq<Byte> := [a];
    assert input[1..] == [];
  }

  lemma Run2(s: State, a: Byte, b: Byte)
    requires Step(s, a).ok
    ensures var t := Step(Step(s, a).st, b);
            var r := Run(s, [a, b]);
            r.st == t.st && r.out == Step(s, a).out + t.out && r.ok == t.ok
  {
    hide Step;
    var input: seq<Byte> := [a, b];
    assert input[1..] == [b];
    Run1(Step(s, a).st, b);
  }

  lemma Run3(s: State, a: Byte, b: Byte, c: Byte)
    requires Step(s, a).ok && Step(Step(s, a).st, b).ok
    ensures var m := Step(Step(s, a).st, b);
            var t := Step(m.st, c);
            var r := Run(s, [a, b, c]);
            r.st == t.st && r.out == Step(s, a).out + (m.out + t.out) && r.ok == t.ok
  {
    hide Step;
    var input: seq<Byte> := [a, b, c];
    assert input[1..] == [b, c];
    Run2(Step(s, a).st, b, c);
  }

  // r is a run that is legal, puts out gs and ends in st.
  predicate Yields(r: Result, st: State, gs: seq<Glyph>) { r.ok && r.st == st && r.out == gs }

  // A quiet prefix, then a run.
  lemma RunQuietThen(s: State, a: seq<Byte>, s1: State, b: seq<Byte>)
    requires Yields(Run(s, a), s1, [])
    ensures var t := Run(s1, b);
            var r := Run(s, a + b);
            r.st == t.st && r.out == t.out && r.ok == t.ok
  {
    hide Run;
    RunAppend(s, a, b);
    assert [] + Run(s1, b).out == Run(s1, b).out;
  }

  lemma RunNothing(s: State)
    ensures Yields(Run(s, []), s, [])
  {
  }

  // ESC 0x2a F and ESC 0x2b F: a one-byte set to G2 or G3.
  lemma RunDesignateSingle(s: State, x: Byte, final: Byte)
    requires s.mode == NORMAL && 0x2a <= x <= 0x2b && IsSingleByteDesignator(final)
    ensures Yields(Run(s, [ESC, x, final]), s.(gidx := x - 0x28, g := s.g[x - 0x28 := final]), [])
  {
    Run3(s, ESC, x, final);
  }

  lemma RunEscMulti(s: State)
    requires s.mode == NORMAL
    ensures Yields(Run(s, [ESC, 0x24]), s.(mode := DESIGNATE_MB), [])
  {
    Run2(s, ESC, 0x24);
  }

  lemma RunChooseMulti(s: State, x: Byte, final: Byte)
    requires s.mode == DESIGNATE_MB && 0x2a <= x <= 0x2b && IsMultiByteDesignator(final)
    ensures Yields(Run(s, [x, final]), s.(mode := NORMAL, gidx := x - 0x28, g := s.g[x - 0x28 := final]), [])
  {
    Run2(s, x, final);
  }

  // ESC 0x24 0x2a F and ESC 0x24 0x2b F: a two-byte set to G2 or G3.
  lemma RunDesignateMulti(s: State, x: Byte, final: Byte)
    requires s.mode == NORMAL && 0x2a <= x <= 0x2b && IsMultiByteDesignator(final)
    ensures Yields(Run(s, [ESC, 0x24, x, final]), s.(gidx := x - 0x28, g := s.g[x - 0x28 := final]), [])
  {
    hide Run;
    var s1 := s.(mode := DESIGNATE_MB);
    RunEscMulti(s);
    RunChooseMulti(s1, x, final);
    RunQuietThen(s, [ESC, 0x24], s1, [x, final]);
    assert [ESC, 0x24] + [x, final] == [ESC, 0x24, x, final];
  }

  // ESC LS2R and ESC LS3R.
  lemma RunLockRight(s: State, x: Byte)
    requires s.mode == NORMAL && s.ss == 0 && (x == LS2R || x == LS3R)
    ensures Yields(Run(s, [ESC, x]), s.(gr := if x == LS2R then 2 else 3), [])
  {
    Run2(s, ESC, x);
  }

  // A graphic byte of a one-byte set in GR.
  lemma RunRight(s: State, b: Byte)
    requires s.mode == NORMAL && s.ss == 0 && 0xa1 <= b <= 0xfe && !IsTwoByteSet(s.g[s.gr])
    ensures Yields(Run(s, [b]), s, [Sym(s.g[s.gr], b - 0x80, 0)])
  {
    Run1(s, b);
  }

  // Two bytes of a two-byte set in GL or GR.
  lemma RunPair(s: State, a: Byte, b: Byte)
    requires s.mode == NORMAL && s.ss == 0
    requires 0x21 <= a % 128 <= 0x7e && 0x21 <= b % 128 <= 0x7e && (a >= 0x80 <==> b >= 0x80)
    requires IsTwoByteSet(s.g[Selected(s, a)])
    ensures Yields(Run(s, [a, b]), s.(prev := a), [Sym(s.g[Selected(s, a)], a % 128, b % 128)])
  {
    Run2(s, a, b);
  }

  // SS2 or SS3, then two bytes of a two-byte set in G2 or G3.
  lemma RunShiftedPair(s: State, shift: Byte, a: Byte, b: Byte)
    requires s.mode == NORMAL && s.ss == 0 && (shift == SS2 || shift == SS3)
    requires 0x21 <= a <= 0x7e && 0x21 <= b <= 0x7e
    requires IsTwoByteSet(s.g[if shift == SS2 then 2 else 3])
    ensures Yields(Run(s, [shift, a, b]), s.(prev := a), [Sym(s.g[if shift == SS2 then 2 else 3], a, b)])
  {
    Run3(s, shift, a, b);
  }

  // ----- One unit -----

  // Two quiet parts, then a run.
  lemma RunTwoQuietThen(s: State, a: seq<Byte>, s1: State, b: seq<Byte>, s2: State, c: seq<Byte>)
    requires Yields(Run(s, a), s1, []) && Yields(Run(s1, b), s2, [])
    ensures var t := Run(s2, c);
            var r := Run(s, a + b + c);
            r.st == t.st && r.out == t.out && r.ok == t.ok
  {
    hide Run;
    RunQuietThen(s, a, s1, b);
    RunQuietThen(s, a + b, s2, c);
  }

  // The run r of a unit's bytes puts out gs and keeps the two sides together.
  predicate Follows(sh: Shadow, stale: bool, r: Result, gs: seq<Glyph>) {
    r.ok && r.out == gs && InSync(sh, stale, r.st)
  }

  // A byte of a one-byte set in G2 or G3, which is designated and locked to GR
  // before if asked for.
  lemma RunOneByte(d: State, x: Byte, final: Byte, designate: bool, lock: bool, c: Byte)
    requires d.mode == NORMAL && d.ss == 0 && 0x2a <= x <= 0x2b && 0x21 <= c <= 0x7e
    requires IsSingleByteDesignator(final)
    requires (!designate ==> d.g[x - 0x28] == final) && (!lock ==> d.gr == x - 0x28)
    ensures var a: seq<Byte> := if designate then [ESC, x, final] else [];
            var b: seq<Byte> := if lock then [ESC, if x == 0x2a then LS2R else LS3R] else [];
            var d1 := if designate then d.(gidx := x - 0x28, g := d.g[x - 0x28 := final]) else d;
            var d2 := if lock then d1.(gr := x - 0x28) else d1;
            Yields(Run(d, a + b + [0x80 + c]), d2, [Sym(final, c, 0)])
  {
    hide Run, Step;
    var a: seq<Byte> := if designate then [ESC, x, final] else [];
    var b: seq<Byte> := if lock then [ESC, if x == 0x2a then LS2R else LS3R] else [];
    var d1 := if designate then d.(gidx := x - 0x28, g := d.g[x - 0x28 := final]) else d;
    var d2 := if lock then d1.(gr := x - 0x28) else d1;
    RunNothing(d);
    RunNothing(d1);
    if designate { RunDesignateSingle(d, x, final); }
    if lock { RunLockRight(d1, if x == 0x2a then LS2R else LS3R); }
    RunTwoQuietThen(d, a, d1, b, d2, [0x80 + c]);
    RunRight(d2, 0x80 + c);
  }

  lemma FollowG2(sh: Shadow, stale: bool, d: State, c: Byte)
    requires InSync(sh, stale, d) && 0x21 <= c <= 0x7e
    ensures var e := EmitG2(sh, HIRAGANA_idx, HIRAGANA, 0x80 + c);
            Follows(e.sh, false, Run(d, e.bytes), [Sym(HIRAGANA, c, 0)])
  {
    hide Run, Step;
    RunOneByte(d, 0x2a, HIRAGANA, sh.g2 != HIRAGANA_idx, sh.gr == 1, c);
  }

  lemma FollowG3(sh: Shadow, stale: bool, d: State, idx: Idx, c: Byte)
    requires InSync(sh, stale, d) && 0x21 <= c <= 0x7e && (idx == KATAKANA_idx || idx == JIS0201_KATA_idx)
    ensures var e := EmitG3(sh, idx, SetOf(idx), 0x80 + c);
            Follows(e.sh, stale, Run(d, e.bytes), [Sym(SetOf(idx), c, 0)])
  {
    hide Run, Step;
    RunOneByte(d, 0x2b, SetOf(idx), sh.g3 != idx, sh.gr == 0, c);
  }

  lemma FollowAscii(sh: Shadow, stale: bool, d: State, ch: Byte)
    requires InSync(sh, stale, d) && ValidUnit(Ascii(ch)) && ch != 0
    ensures var e := EmitAscii(sh, ch);
            Follows(e.sh, stale && ch != LF, Run(d, e.bytes), [UnitGlyph(sh, Ascii(ch))])
  {
    if EmitAscii(sh, ch).bytes == [ch] {
      Run1(d, ch);
    } else {
      hide Run;
      Run2(d, LS1, ch);
    }
  }

  lemma FollowKanji(sh: Shadow, stale: bool, d: State, code: nat)
    requires InSync(sh, stale, d) && IsCode(code)
    ensures var e := Emit(sh, Kanji(code));
            Follows(e.sh, stale, Run(d, e.bytes), [Sym(KANJI, code / 256, code % 256)])
  {
    hide Run;
    if sh.gl == 1 {
      Run1(d, LS0);
      RunQuietThen(d, [LS0], d.(gl := 0), [code / 256, code % 256]);
    } else {
      assert [] + [code / 256, code % 256] == [code / 256, code % 256];
    }
    RunPair(d.(gl := 0), code / 256, code % 256);
  }

  // Two NULs, which leave the decoder as it is.
  lemma FollowBlank(sh: Shadow, stale: bool, d: State)
    requires InSync(sh, stale, d)
    ensures var e := Emit(sh, BLANK);
            Follows(e.sh, stale, Run(d, e.bytes), [])
  {
    var d1 := d.(gl := 0);
    Run2(d1, 0, 0);
    if sh.gl == 1 {
      Run1(d, LS0);
      hide Run;
      RunQuietThen(d, [LS0], d1, [0, 0]);
    } else {
      assert d1 == d && [] + [0, 0] == [0, 0];
    }
  }

  // A pair through G2 or G3, by single shift or through GR.
  lemma RunEmitPair(s: State, n: Two, code: nat)
    requires s.mode == NORMAL && s.ss == 0 && (n == 2 || n == 3) && IsCode(code) && IsTwoByteSet(s.g[n])
    ensures var shift: seq<Byte> := if s.gr == n then [] else if n == 2 then [SS2] else [SS3];
            var r := Run(s, EmitPair(shift, code));
            && r.ok && r.out == [Sym(s.g[n], code / 256, code % 256)]
            && r.st == s.(prev := r.st.prev)
  {
    hide Run;
    if s.gr == n {
      RunPair(s, 0x80 + code / 256, 0x80 + code % 256);
    } else {
      var shift := if n == 2 then SS2 else SS3;
      RunShiftedPair(s, shift, code / 256, code % 256);
      assert EmitPair([shift], code) == [shift, code / 256, code % 256];
    }
  }

  lemma FollowX0213(sh: Shadow, stale: bool, d: State, code: nat, plane2: bool)
    requires InSync(sh, stale, d) && IsCode(code)
    ensures var e := Emit(sh, X0213(code, plane2));
            Follows(e.sh, stale || plane2, Run(d, e.bytes),
                    [Sym(if stale || plane2 then JISX0213_2 else JISX0213_1, code / 256, code % 256)])
  {
    hide Run;
    var final := if plane2 then JISX0213_2 else JISX0213_1;
    var shift: seq<Byte> := if sh.gr == 1 then [SS2] else [];
    if plane2 || sh.g2 != JISX0213_1_idx {
      var d1 := d.(gidx := 2, g := d.g[2 := final]);
      RunDesignateMulti(d, 0x2a, final);
      RunQuietThen(d, [ESC, 0x24, 0x2a, final], d1, EmitPair(shift, code));
      RunEmitPair(d1, 2, code);
    } else {
      RunEmitPair(d, 2, code);
    }
  }

  lemma FollowExtSym(sh: Shadow, stale: bool, d: State, code: nat)
    requires InSync(sh, stale, d) && IsCode(code)
    ensures var e := Emit(sh, ExtSym(code));
            Follows(e.sh, stale, Run(d, e.bytes), [Sym(EXTRA_SYMBOLS, code / 256, code % 256)])
  {
    hide Run;
    var shift: seq<Byte> := if sh.gr == 0 then [SS3] else [];
    if sh.g3 != EXTRA_SYMBOLS_idx {
      var d1 := d.(gidx := 3, g := d.g[3 := EXTRA_SYMBOLS]);
      RunDesignateMulti(d, 0x2b, EXTRA_SYMBOLS);
      RunQuietThen(d, [ESC, 0x24, 0x2b, EXTRA_SYMBOLS], d1, EmitPair(shift, code));
      RunEmitPair(d1, 3, code);
    } else {
      assert [] + EmitPair(shift, code) == EmitPair(shift, code);
      RunEmitPair(d, 3, code);
    }
  }

  // A plane-1 character while G2 is stale is read in plane 2.
  predicate Misread(stale: bool, u: Unit) { stale && u.X0213? && !u.plane2 }

  // The unit for a character of JIS X 0208 that JIS X 0213 does not have.
  const BLANK: Unit := Kanji(0)

  function ReadGlyph(sh: Shadow, stale: bool, u: Unit): Glyph
    requires ValidUnit(u)
  {
    if Misread(stale, u) then Sym(JISX0213_2, u.code / 256, u.code % 256) else UnitGlyph(sh, u)
  }

  // What the decoder reads from a unit other than NUL.
  function Read(sh: Shadow, stale: bool, u: Unit): seq<Glyph>
    requires ValidUnit(u)
  {
    if u == BLANK then [] else [ReadGlyph(sh, stale, u)]
  }

  // The step of the simulation: whatever unit but NUL, the decoder reads one
  // glyph, the right one unless the unit is misread, or none from a blank, and
  // stays in sync.
  lemma Simulate(sh: Shadow, stale: bool, d: State, u: Unit)
    requires InSync(sh, stale, d) && ValidUnit(u) && u != Ascii(0)
    ensures var e := Emit(sh, u);
            Follows(e.sh, StaleAfter(stale, UnitGlyph(sh, u)), Run(d, e.bytes), Read(sh, stale, u))
  {
    hide Run, InSync, EmitAscii, EmitG2, EmitG3, EmitPair, IsControl;
    match u
    case Ascii(ch) => FollowAscii(sh, stale, d, ch);
    case HalfKata(ch) => FollowG3(sh, stale, d, JIS0201_KATA_idx, ch - 0x80);
    case Kata(c) => FollowG3(sh, stale, d, KATAKANA_idx, c);
    case Hira(c) => FollowG2(sh, stale, d, c);
    case Punc(i) =>
      if PuncIsHiragana(sh, i) {
        FollowG2(sh, stale, d, PuncCode(i));
      } else {
        FollowG3(sh, stale, d, KATAKANA_idx, PuncCode(i));
      }
    case Kanji(code) => if code == 0 { FollowBlank(sh, stale, d); } else { FollowKanji(sh, stale, d, code); }
    case X0213(code, plane2) => FollowX0213(sh, stale, d, code, plane2);
    case ExtSym(code) => FollowExtSym(sh, stale, d, code);
  }
}
