// The ARIB STD-B24 to UCS-4 direction of contrib/gconv/arib-std-b24.c: the
// decoder's state machine over bytes.  A decoded character is first a glyph, a
// (set, code) pair; module AribCharConv says which code points it stands for.

module AribDecoder {
  import opened Base

  const ESC: Byte := 0x1b
  const SS2: Byte := 0x19
  const SS3: Byte := 0x1d
  const LS0: Byte := 0x0f
  const LS1: Byte := 0x0e
  const LS2: Byte := 0x6e
  const LS3: Byte := 0x6f
  const LS1R: Byte := 0x7e
  const LS2R: Byte := 0x7d
  const LS3R: Byte := 0x7c
  const LF: Byte := 0x0a
  const CR: Byte := 0x0d
  const BEL: Byte := 0x07
  const BS: Byte := 0x08
  const COL: Byte := 0x90
  const CDC: Byte := 0x92
  const MACRO_CTRL: Byte := 0x95
  const CSI: Byte := 0x9b
  const TIME: Byte := 0x9d

  // Final bytes of the code set designations.
  const KANJI: Byte := 0x42
  const ASCII: Byte := 0x40
  const ASCII_X: Byte := 0x4a
  const HIRAGANA: Byte := 0x30
  const KATAKANA: Byte := 0x31
  const PROP_ASCII: Byte := 0x36
  const PROP_HIRA: Byte := 0x37
  const PROP_KATA: Byte := 0x38
  const JIS0201_KATA: Byte := 0x49
  const JISX0213_1: Byte := 0x39
  const JISX0213_2: Byte := 0x3a
  const EXTRA_SYMBOLS: Byte := 0x3b
  const DRCS0: Byte := 0xc0
  const DRCS15: Byte := 0xcf
  const MACRO: Byte := 0xf0

  datatype Mode = NORMAL | ESCAPE | G_SEL_1B | G_SEL_MB | CTRL_SEQ
                | DESIGNATE_MB | DRCS_SEL_1B | DRCS_SEL_MB | MB_2ND

  // A two-bit field.
  type Two = x: int | 0 <= x < 4

  type GSets = g: seq<Byte> | |g| == 4 witness [KANJI, ASCII, HIRAGANA, KATAKANA]

  datatype State = State(mode: Mode, gl: Two, gr: Two, ss: Two, gidx: Two,
                         skip: Byte, prev: Byte, g: GSets)

  const DEFAULT: State := State(NORMAL, 0, 2, 0, 0, 0, 0, [KANJI, ASCII, HIRAGANA, KATAKANA])

  // What one step of the decoder puts out: a byte passed through, the
  // replacement character for 0xff, or a code of one of the graphic sets (c2
  // is 0 for the one-byte sets).
  datatype Glyph = Through(b: Byte) | Unknown | Sym(gset: Byte, c1: Byte, c2: Byte)

  // ok is false when the byte is illegal input; the byte is then not consumed
  // but the state change stays.
  datatype Result = Result(st: State, out: seq<Glyph>, ok: bool)

  predicate IsControl(b: Byte) { b % 128 < 0x20 }

  predicate IsMultiByteDesignator(b: Byte) {
    b == KANJI || b == JISX0213_1 || b == JISX0213_2 || b == EXTRA_SYMBOLS
  }

  predicate IsSingleByteDesignator(b: Byte) {
    b == ASCII || b == ASCII_X || b == JIS0201_KATA || 0x30 <= b <= 0x38
  }

  predicate IsTwoByteSet(gset: Byte) { gset == DRCS0 || IsMultiByteDesignator(gset) }

  predicate IsLegalSet(gset: Byte) {
    IsMultiByteDesignator(gset) || IsSingleByteDesignator(gset) || DRCS0 <= gset <= DRCS15 || gset == MACRO
  }

  // The G-set a graphic byte selects.
  function Selected(s: State, b: Byte): Two {
    if s.ss != 0 then s.ss else if b >= 0x80 then s.gr else s.gl
  }

  function Quiet(s: State): Result { Result(s, [], true) }

  function Illegal(s: State): Result { Result(s, [], false) }

  function Puts(s: State, g: Glyph): Result { Result(s, [g], true) }

  function StepControlSequence(s: State, b: Byte): Result
    requires s.mode == CTRL_SEQ
  {
    if s.skip != 0 then
      var s1 := s.(skip := s.skip - 1);
      var s2 := if s1.skip == 0 then s1.(mode := NORMAL) else s1;
      if 0x40 <= b <= 0x7f then Quiet(s2) else Illegal(s2)
    else if s.prev == MACRO_CTRL then
      if b == MACRO_CTRL then Quiet(s.(skip := 1))
      else if b == LF || b == CR then Puts(DEFAULT, Through(b))
      else Quiet(s)
    else if s.prev == CSI && (b == 0x5b || b == 0x5c || b == 0x6f) then
      Quiet(s.(mode := NORMAL))
    else if s.prev == TIME || s.prev == CSI then
      if b == 0x20 || (s.prev == TIME && b == 0x28) then Quiet(s.(skip := 1))
      else if (s.prev == TIME && b == 0x29) || b == 0x3b || 0x30 <= b <= 0x39 then Quiet(s)
      else Illegal(s.(mode := NORMAL))
    else if s.prev == COL || s.prev == CDC then
      if b == 0x20 then Quiet(s.(skip := 1))
      else if 0x40 <= b <= 0x7f then Quiet(s.(mode := NORMAL))
      else Illegal(s.(mode := NORMAL))
    else Quiet(s)
  }

  function StepEscape(s: State, b: Byte): Result {
    var n := s.(mode := NORMAL);
    if b == LS2 || b == LS3 then Quiet(n.(gl := if b == LS2 then 2 else 3, ss := 0))
    else if b == LS1R || b == LS2R || b == LS3R then
      Quiet(n.(gr := if b == LS1R then 1 else if b == LS2R then 2 else 3, ss := 0))
    else if b == 0x24 then Quiet(s.(mode := DESIGNATE_MB))
    else if 0x28 <= b <= 0x2b then Quiet(s.(mode := G_SEL_1B, gidx := b - 0x28))
    else Illegal(n)
  }

  // The bytes after ESC 0x24, ESC 0x28..0x2b, ESC 0x24 0x28..0x2b and the two
  // DRCS forms of those.
  function StepDesignation(s: State, b: Byte): Result {
    var n := s.(mode := NORMAL);
    match s.mode
    case DESIGNATE_MB =>
      if IsMultiByteDesignator(b) then Quiet(n.(g := s.g[0 := b]))
      else if 0x28 <= b <= 0x2b then Quiet(s.(mode := G_SEL_MB, gidx := b - 0x28))
      else Illegal(n)
    case G_SEL_1B =>
      if IsSingleByteDesignator(b) then Quiet(n.(g := s.g[s.gidx := b]))
      else if b == 0x20 then Quiet(s.(mode := DRCS_SEL_1B))
      else Illegal(n)
    case G_SEL_MB =>
      if IsMultiByteDesignator(b) then Quiet(n.(g := s.g[s.gidx := b]))
      else if b == 0x20 then Quiet(s.(mode := DRCS_SEL_MB))
      else Illegal(n)
    case DRCS_SEL_1B =>
      if b == 0x70 || 0x41 <= b <= 0x4f then Quiet(n.(g := s.g[s.gidx := b + 0x80])) else Illegal(n)
    case _ =>
      if b == 0x40 then Quiet(n.(g := s.g[s.gidx := b + 0x80])) else Illegal(n)
  }

  function StepSecondByte(s: State, b: Byte): Result {
    var n := s.(mode := NORMAL, ss := 0);
    if IsControl(b) || (s.prev >= 0x80) != (b >= 0x80) then Illegal(n)
    else Puts(n, Sym(s.g[Selected(s, b)], s.prev % 128, b % 128))
  }

  function StepC0C1(s: State, b: Byte): Result {
    if b == ESC then Quiet(s.(mode := ESCAPE))
    else if b == SS2 then Quiet(s.(ss := 2))
    else if b == SS3 then Quiet(s.(ss := 3))
    else if b == LS0 then Quiet(s.(ss := 0, gl := 0))
    else if b == LS1 then Quiet(s.(ss := 0, gl := 1))
    else if b == BEL || b == BS || b == CR then Puts(s.(ss := 0), Through(b))
    else if b in {0x09, 0x0b, 0x0c, 0x18, 0x1e, 0x1f, 0x99, 0x9a} || 0x80 <= b <= 0x8a then Quiet(s)
    else if b in {0x16, 0x8b, 0x91, 0x93, 0x94, 0x97, 0x98} then Quiet(s.(mode := CTRL_SEQ, skip := 1))
    else if b == 0x1c then Quiet(s.(mode := CTRL_SEQ, skip := 2))
    else if b in {COL, CDC, MACRO_CTRL, CSI, TIME} then Quiet(s.(mode := CTRL_SEQ, skip := 0, prev := b))
    else Illegal(s)
  }

  function StepNormal(s: State, b: Byte): Result {
    if IsControl(b) then StepC0C1(s, b)
    else if b % 128 == 0x20 || b == 0x7f then Puts(s.(ss := 0), Through(b))
    else if b == 0xff then Puts(s.(ss := 0), Unknown)
    else if s.ss > 0 && b >= 0x80 then Illegal(s)
    else
      var gset := s.g[Selected(s, b)];
      if IsTwoByteSet(gset) then Quiet(s.(mode := MB_2ND, prev := b))
      else Puts(s.(ss := 0), Sym(gset, b % 128, 0))
  }

  // One byte of input.
  function Step(s: State, b: Byte): Result {
    if b == 0 then Quiet(s.(mode := NORMAL))
    else if s.mode == CTRL_SEQ then StepControlSequence(s, b)
    else if b == LF then Puts(DEFAULT, Through(b))
    else match s.mode
      case ESCAPE => StepEscape(s, b)
      case NORMAL => StepNormal(s, b)
      case MB_2ND => StepSecondByte(s, b)
      case _ => StepDesignation(s, b)
  }

  // Input up to its end or to the first illegal byte.
  function Run(s: State, input: seq<Byte>): Result
    decreases |input|
  {
    if input == [] then Quiet(s)
    else
      var r := Step(s, input[0]);
      if !r.ok then r
      else
        var rest := Run(r.st, input[1..]);
        Result(rest.st, r.out + rest.out, rest.ok)
  }

  // ----- Safety of every reachable state -----

  predicate Inv(s: State) {
    && (forall i :: 0 <= i < 4 ==> IsLegalSet(s.g[i]))
    && s.ss != 1
    && s.skip <= 2
    && (s.mode == CTRL_SEQ && s.skip == 0 ==> s.prev in {COL, CDC, MACRO_CTRL, CSI, TIME})
    && (s.mode == MB_2ND ==>
          && 0x21 <= s.prev % 128 <= 0x7e
          && !(s.ss > 0 && s.prev >= 0x80)
          && IsTwoByteSet(s.g[Selected(s, s.prev)]))
  }

  // What a decoded glyph is allowed to be, in the words of the table lookups
  // that follow: the set is legal, the first code is 0x21..0x7e, and a second
  // code is there (0x20..0x7f) exactly for the two-byte sets.
  predicate ProperGlyph(g: Glyph) {
    g.Sym? ==>
      && IsLegalSet(g.gset)
      && 0x21 <= g.c1 <= 0x7e
      && (if IsTwoByteSet(g.gset) then 0x20 <= g.c2 <= 0x7f else g.c2 == 0)
  }

  // NUL is never put out.
  predicate NonNul(g: Glyph) { g != Through(0) }

  predicate SafeResult(r: Result) { Inv(r.st) && forall g <- r.out :: ProperGlyph(g) && NonNul(g) }

  lemma DesignateLegal(s: State, i: Two, gset: Byte)
    requires Inv(s) && IsLegalSet(gset)
    ensures Inv(s.(mode := NORMAL, g := s.g[i := gset]))
  {
  }

  lemma StepControlSequenceInv(s: State, b: Byte)
    requires Inv(s) && s.mode == CTRL_SEQ && b != 0
    ensures SafeResult(StepControlSequence(s, b))
  {
  }

  lemma StepDesignationInv(s: State, b: Byte)
    requires Inv(s) && (s.mode.DESIGNATE_MB? || s.mode.G_SEL_1B? || s.mode.G_SEL_MB?
                        || s.mode.DRCS_SEL_1B? || s.mode.DRCS_SEL_MB?)
    ensures SafeResult(StepDesignation(s, b))
  {
    if IsLegalSet(b) {
      DesignateLegal(s, 0, b);
      DesignateLegal(s, s.gidx, b);
    }
    if b == 0x70 || 0x40 <= b <= 0x4f {
      DesignateLegal(s, s.gidx, b + 0x80);
    }
  }

  lemma StepSecondByteInv(s: State, b: Byte)
    requires Inv(s) && s.mode == MB_2ND
    ensures SafeResult(StepSecondByte(s, b))
  {
    if (s.prev >= 0x80) == (b >= 0x80) {
      assert Selected(s, b) == Selected(s, s.prev);
    }
  }

  lemma StepC0C1Inv(s: State, b: Byte)
    requires Inv(s) && s.mode == NORMAL && b != 0
    ensures SafeResult(StepC0C1(s, b))
  {
  }

  lemma StepNormalInv(s: State, b: Byte)
    requires Inv(s) && s.mode == NORMAL && b != 0
    ensures SafeResult(StepNormal(s, b))
  {
    if IsControl(b) {
      hide StepC0C1;
      StepC0C1Inv(s, b);
    }
  }

  lemma StepInv(s: State, b: Byte)
    requires Inv(s)
    ensures SafeResult(Step(s, b))
  {
    if b != 0 {
      match s.mode
      case CTRL_SEQ => StepControlSequenceInv(s, b);
      case NORMAL => StepNormalInv(s, b);
      case MB_2ND => StepSecondByteInv(s, b);
      case ESCAPE =>
      case _ => StepDesignationInv(s, b);
    }
  }

  // Whatever bytes arrive, and however often decoding resumes after an illegal
  // byte: the invariant holds of every state, and every glyph is proper.
  lemma {:induction false} RunInv(s: State, input: seq<Byte>)
    requires Inv(s)
    ensures SafeResult(Run(s, input))
    decreases |input|
  {
    if input != [] {
      StepInv(s, input[0]);
      if Step(s, input[0]).ok {
        RunInv(Step(s, input[0]).st, input[1..]);
      }
    }
  }

  // NUL then LF brings the decoder from any state to the default state.
  lemma Resynchronise(s: State)
    ensures Run(s, [0, LF]) == Result(DEFAULT, [Through(LF)], true)
  {
    var input: seq<Byte> := [0, LF];
    assert input[1..] == [LF];
    assert Run(DEFAULT, []) == Quiet(DEFAULT);
    assert Run(Step(s, 0).st, [LF]) == Result(DEFAULT, [Through(LF)], true);
  }


  lemma {:induction false} RunAppend(s: State, a: seq<Byte>, b: seq<Byte>)
    requires Run(s, a).ok
    ensures Run(s, a + b).st == Run(Run(s, a).st, b).st
    ensures Run(s, a + b).ok == Run(Run(s, a).st, b).ok
    ensures Run(s, a + b).out == Run(s, a).out + Run(Run(s, a).st, b).out
    decreases |a|
  {
    hide Step;
    if a == [] {
      assert a + b == b;
    } else {
      var h := Step(s, a[0]);
      ConsAppend(a, b);
      RunAppend(h.st, a[1..], b);
    }
  }
}
