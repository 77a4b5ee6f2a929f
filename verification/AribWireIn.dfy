// What the decoder of contrib/gconv/arib-std-b24.c makes of every kind of byte
// sequence, byte for byte: shifts, designations, control sequences and control
// characters, from every state in NORMAL mode.

module AribWireIn {
  import opened Base
  import opened AribDecoder
  import opened AribSimulation

  // ----- What the scratch fields are good for -----

  // States that differ in fields of no use in their mode: the G-set being
  // designated, the count of bytes to skip, and the byte before.
  predicate Alike(s: State, t: State) {
    && s.mode == t.mode && s.gl == t.gl && s.gr == t.gr && s.ss == t.ss && s.g == t.g
    && (s.mode in {G_SEL_1B, G_SEL_MB, DRCS_SEL_1B, DRCS_SEL_MB} ==> s.gidx == t.gidx)
    && (s.mode == CTRL_SEQ ==> s.skip == t.skip && (s.skip == 0 ==> s.prev == t.prev))
    && (s.mode == MB_2ND ==> s.prev == t.prev)
  }

  predicate AlikeResults(x: Result, y: Result) { Alike(x.st, y.st) && x.out == y.out && x.ok == y.ok }

  lemma NormalAlike(s: State, t: State, b: Byte)
    requires Alike(s, t) && s.mode == NORMAL
    ensures AlikeResults(StepNormal(s, b), StepNormal(t, b))
  {
    if IsControl(b) {
      ControlAlike(s, t, b);
      hide StepC0C1;
    }
  }

  lemma ControlAlike(s: State, t: State, b: Byte)
    requires Alike(s, t) && s.mode == NORMAL
    ensures AlikeResults(StepC0C1(s, b), StepC0C1(t, b))
  {
  }

  lemma SequenceAlike(s: State, t: State, b: Byte)
    requires Alike(s, t) && s.mode == CTRL_SEQ
    ensures AlikeResults(StepControlSequence(s, b), StepControlSequence(t, b))
  {
  }

  lemma DesignationAlike(s: State, t: State, b: Byte)
    requires Alike(s, t)
    requires s.mode in {DESIGNATE_MB, G_SEL_1B, G_SEL_MB, DRCS_SEL_1B, DRCS_SEL_MB}
    ensures AlikeResults(StepDesignation(s, b), StepDesignation(t, b))
  {
  }

  lemma StepAlike(s: State, t: State, b: Byte)
    requires Alike(s, t)
    ensures AlikeResults(Step(s, b), Step(t, b))
  {
    hide StepNormal, StepControlSequence, StepDesignation;
    match s.mode
    case NORMAL => NormalAlike(s, t, b);
    case CTRL_SEQ => SequenceAlike(s, t, b);
    case ESCAPE =>
    case MB_2ND =>
    case _ => DesignationAlike(s, t, b);
  }

  // No input tells them apart.
  lemma {:induction false} AlikeRun(s: State, t: State, input: seq<Byte>)
    requires Alike(s, t)
    ensures AlikeResults(Run(s, input), Run(t, input))
    decreases |input|
  {
    if input != [] {
      StepAlike(s, t, input[0]);
      hide Step, Alike;
      if Step(s, input[0]).ok {
        AlikeRun(Step(s, input[0]).st, Step(t, input[0]).st, input[1..]);
      }
    }
  }

  // From s, input is read as gs, and what comes next is read as from t.
  predicate Reads(s: State, input: seq<Byte>, gs: seq<Glyph>, t: State) {
    var r := Run(s, input);
    r.ok && r.out == gs && Alike(r.st, t)
  }

  // From s, the last byte of input is illegal, nothing having been read, and
  // decoding goes on from t.
  predicate Rejects(s: State, input: seq<Byte>, t: State) {
    var r := Run(s, input);
    !r.ok && r.out == [] && Alike(r.st, t)
  }

  lemma ReadsThen(s: State, a: seq<Byte>, m: State, b: seq<Byte>, gs: seq<Glyph>, t: State)
    requires Reads(s, a, [], m)
    ensures Reads(m, b, gs, t) ==> Reads(s, a + b, gs, t)
    ensures Rejects(m, b, t) ==> Rejects(s, a + b, t)
  {
    RunAppend(s, a, b);
    AlikeRun(Run(s, a).st, m, b);
    hide Run;
    assert [] + Run(m, b).out == Run(m, b).out;
  }

  lemma ReadsByte(s: State, b: Byte, gs: seq<Glyph>, t: State)
    ensures Step(s, b).ok && Step(s, b).out == gs && Alike(Step(s, b).st, t) ==> Reads(s, [b], gs, t)
    ensures !Step(s, b).ok && Step(s, b).out == [] && Alike(Step(s, b).st, t) ==> Rejects(s, [b], t)
  {
    hide Step, Alike;
    Run1(s, b);
  }

  // ----- Graphic characters -----

  predicate TakesTwoBytes(gset: Byte) { gset in {0x42, 0x39, 0x3a, 0x3b, 0xc0} }

  // A byte of the left half is read in the set in GL, one of the right half in
  // the set in GR, and the former in the set of a single shift, for one time.
  lemma GraphicByte(s: State, c: Byte)
    requires s.mode == NORMAL && 0x21 <= c <= 0x7e
    ensures s.ss == 0 && !TakesTwoBytes(s.g[s.gl]) ==> Reads(s, [c], [Sym(s.g[s.gl], c, 0)], s)
    ensures s.ss == 0 && !TakesTwoBytes(s.g[s.gr]) ==> Reads(s, [0x80 + c], [Sym(s.g[s.gr], c, 0)], s)
    ensures s.ss != 0 && !TakesTwoBytes(s.g[s.ss]) ==> Reads(s, [c], [Sym(s.g[s.ss], c, 0)], s.(ss := 0))
    ensures s.ss != 0 ==> Rejects(s, [0x80 + c], s)
  {
    hide StepC0C1, StepControlSequence, StepEscape, StepDesignation;
    Run1(s, c);
    Run1(s, 0x80 + c);
  }

  // So is a pair of bytes of one half, if the set has two-byte codes.
  lemma GraphicPair(s: State, c: Byte, e: Byte)
    requires s.mode == NORMAL && 0x21 <= c <= 0x7e && 0x20 <= e <= 0x7f
    ensures s.ss == 0 && TakesTwoBytes(s.g[s.gl]) ==> Reads(s, [c, e], [Sym(s.g[s.gl], c, e)], s)
    ensures s.ss == 0 && TakesTwoBytes(s.g[s.gr]) ==>
              Reads(s, [0x80 + c, 0x80 + e], [Sym(s.g[s.gr], c, e)], s)
    ensures s.ss != 0 && TakesTwoBytes(s.g[s.ss]) ==> Reads(s, [c, e], [Sym(s.g[s.ss], c, e)], s.(ss := 0))
  {
    hide StepC0C1, StepControlSequence, StepEscape, StepDesignation;
    if Step(s, c).ok { Run2(s, c, e); }
    if Step(s, 0x80 + c).ok { Run2(s, 0x80 + c, 0x80 + e); }
  }

  // The second byte is not a control character and comes from the same half;
  // otherwise the character is given up, and with it a single shift.
  lemma BrokenPair(s: State, c: Byte, e: Byte)
    requires s.mode == NORMAL && 0x21 <= c % 128 <= 0x7e && c != 0xff && e != 0x00 && e != 0x0a
    requires TakesTwoBytes(s.g[if s.ss != 0 then s.ss else if c < 0x80 then s.gl else s.gr])
    requires s.ss != 0 ==> c < 0x80
    requires e < 0x20 || 0x80 <= e < 0xa0 || (c < 0x80 && e >= 0x80) || (c >= 0x80 && e < 0x80)
    ensures Rejects(s, [c, e], s.(ss := 0))
  {
    Run2(s, c, e);
  }

  // ----- Shifts -----

  lemma Shifts(s: State)
    requires s.mode == NORMAL
    ensures Reads(s, [0x0f], [], s.(gl := 0, ss := 0)) && Reads(s, [0x0e], [], s.(gl := 1, ss := 0))
    ensures Reads(s, [0x1b, 0x6e], [], s.(gl := 2, ss := 0)) && Reads(s, [0x1b, 0x6f], [], s.(gl := 3, ss := 0))
    ensures Reads(s, [0x1b, 0x7e], [], s.(gr := 1, ss := 0)) && Reads(s, [0x1b, 0x7d], [], s.(gr := 2, ss := 0))
    ensures Reads(s, [0x1b, 0x7c], [], s.(gr := 3, ss := 0))
    ensures Reads(s, [0x19], [], s.(ss := 2)) && Reads(s, [0x1d], [], s.(ss := 3))
  {
    Run1(s, 0x0f);
    Run1(s, 0x0e);
    Run1(s, 0x19);
    Run1(s, 0x1d);
    Run2(s, 0x1b, 0x6e);
    Run2(s, 0x1b, 0x6f);
    Run2(s, 0x1b, 0x7e);
    Run2(s, 0x1b, 0x7d);
    Run2(s, 0x1b, 0x7c);
  }

  // A byte behind a shift is read in the set shifted to: G0 to G3 through GL, G1
  // to G3 through GR.
  lemma ByteBehindShift(s: State, c: Byte)
    requires s.mode == NORMAL && 0x21 <= c <= 0x7e
    ensures !TakesTwoBytes(s.g[0]) ==> Reads(s, [0x0f, c], [Sym(s.g[0], c, 0)], s.(gl := 0, ss := 0))
    ensures !TakesTwoBytes(s.g[1]) ==>
              && Reads(s, [0x0e, c], [Sym(s.g[1], c, 0)], s.(gl := 1, ss := 0))
              && Reads(s, [0x1b, 0x7e, 0x80 + c], [Sym(s.g[1], c, 0)], s.(gr := 1, ss := 0))
    ensures !TakesTwoBytes(s.g[2]) ==>
              && Reads(s, [0x1b, 0x6e, c], [Sym(s.g[2], c, 0)], s.(gl := 2, ss := 0))
              && Reads(s, [0x1b, 0x7d, 0x80 + c], [Sym(s.g[2], c, 0)], s.(gr := 2, ss := 0))
              && Reads(s, [0x19, c], [Sym(s.g[2], c, 0)], s.(ss := 0))
    ensures !TakesTwoBytes(s.g[3]) ==>
              && Reads(s, [0x1b, 0x6f, c], [Sym(s.g[3], c, 0)], s.(gl := 3, ss := 0))
              && Reads(s, [0x1b, 0x7c, 0x80 + c], [Sym(s.g[3], c, 0)], s.(gr := 3, ss := 0))
              && Reads(s, [0x1d, c], [Sym(s.g[3], c, 0)], s.(ss := 0))
  {
    hide *;
    Shifts(s);
    ShiftedByte(s, [0x0f], s.(gl := 0, ss := 0), c);
    ShiftedByte(s, [0x0e], s.(gl := 1, ss := 0), c);
    ShiftedByte(s, [0x1b, 0x6e], s.(gl := 2, ss := 0), c);
    ShiftedByte(s, [0x1b, 0x6f], s.(gl := 3, ss := 0), c);
    ShiftedByte(s, [0x1b, 0x7e], s.(gr := 1, ss := 0), c);
    ShiftedByte(s, [0x1b, 0x7d], s.(gr := 2, ss := 0), c);
    ShiftedByte(s, [0x1b, 0x7c], s.(gr := 3, ss := 0), c);
    ShiftedByte(s, [0x19], s.(ss := 2), c);
    ShiftedByte(s, [0x1d], s.(ss := 3), c);
    Joins(c);
    Joins(0x80 + c);
  }

  lemma Joins(c: Byte)
    ensures [0x0f] + [c] == [0x0f, c] && [0x0e] + [c] == [0x0e, c]
    ensures [0x19] + [c] == [0x19, c] && [0x1d] + [c] == [0x1d, c]
    ensures forall x: Byte :: [0x1b, x] + [c] == [0x1b, x, c]
  {
  }

  lemma ShiftedByte(s: State, shift: seq<Byte>, t: State, c: Byte)
    requires Reads(s, shift, [], t) && t.mode == NORMAL && 0x21 <= c <= 0x7e
    ensures t.ss == 0 && !TakesTwoBytes(t.g[t.gl]) ==> Reads(s, shift + [c], [Sym(t.g[t.gl], c, 0)], t)
    ensures t.ss == 0 && !TakesTwoBytes(t.g[t.gr]) ==> Reads(s, shift + [0x80 + c], [Sym(t.g[t.gr], c, 0)], t)
    ensures t.ss != 0 && !TakesTwoBytes(t.g[t.ss]) ==> Reads(s, shift + [c], [Sym(t.g[t.ss], c, 0)], t.(ss := 0))
  {
    hide *;
    GraphicByte(t, c);
    ReadsThen(s, shift, t, [c], [Sym(t.g[t.gl], c, 0)], t);
    ReadsThen(s, shift, t, [0x80 + c], [Sym(t.g[t.gr], c, 0)], t);
    ReadsThen(s, shift, t, [c], [Sym(t.g[t.ss], c, 0)], t.(ss := 0));
  }

  // So is a pair.
  lemma PairBehindShift(s: State, c: Byte, e: Byte)
    requires s.mode == NORMAL && 0x21 <= c <= 0x7e && 0x20 <= e <= 0x7f
    ensures TakesTwoBytes(s.g[0]) ==> Reads(s, [0x0f, c, e], [Sym(s.g[0], c, e)], s.(gl := 0, ss := 0))
    ensures TakesTwoBytes(s.g[1]) ==>
              && Reads(s, [0x0e, c, e], [Sym(s.g[1], c, e)], s.(gl := 1, ss := 0))
              && Reads(s, [0x1b, 0x7e, 0x80 + c, 0x80 + e], [Sym(s.g[1], c, e)], s.(gr := 1, ss := 0))
    ensures TakesTwoBytes(s.g[2]) ==>
              && Reads(s, [0x1b, 0x6e, c, e], [Sym(s.g[2], c, e)], s.(gl := 2, ss := 0))
              && Reads(s, [0x1b, 0x7d, 0x80 + c, 0x80 + e], [Sym(s.g[2], c, e)], s.(gr := 2, ss := 0))
              && Reads(s, [0x19, c, e], [Sym(s.g[2], c, e)], s.(ss := 0))
    ensures TakesTwoBytes(s.g[3]) ==>
              && Reads(s, [0x1b, 0x6f, c, e], [Sym(s.g[3], c, e)], s.(gl := 3, ss := 0))
              && Reads(s, [0x1b, 0x7c, 0x80 + c, 0x80 + e], [Sym(s.g[3], c, e)], s.(gr := 3, ss := 0))
              && Reads(s, [0x1d, c, e], [Sym(s.g[3], c, e)], s.(ss := 0))
  {
    hide *;
    Shifts(s);
    ShiftedPair(s, [0x0f], s.(gl := 0, ss := 0), c, e);
    ShiftedPair(s, [0x0e], s.(gl := 1, ss := 0), c, e);
    ShiftedPair(s, [0x1b, 0x6e], s.(gl := 2, ss := 0), c, e);
    ShiftedPair(s, [0x1b, 0x6f], s.(gl := 3, ss := 0), c, e);
    ShiftedPair(s, [0x1b, 0x7e], s.(gr := 1, ss := 0), c, e);
    ShiftedPair(s, [0x1b, 0x7d], s.(gr := 2, ss := 0), c, e);
    ShiftedPair(s, [0x1b, 0x7c], s.(gr := 3, ss := 0), c, e);
    ShiftedPair(s, [0x19], s.(ss := 2), c, e);
    ShiftedPair(s, [0x1d], s.(ss := 3), c, e);
    JoinsPair(c, e);
    JoinsPair(0x80 + c, 0x80 + e);
  }

  lemma JoinsPair(c: Byte, e: Byte)
    ensures [0x0f] + [c, e] == [0x0f, c, e] && [0x0e] + [c, e] == [0x0e, c, e]
    ensures [0x19] + [c, e] == [0x19, c, e] && [0x1d] + [c, e] == [0x1d, c, e]
    ensures forall x: Byte :: [0x1b, x] + [c, e] == [0x1b, x, c, e]
  {
  }

  lemma ShiftedPair(s: State, shift: seq<Byte>, t: State, c: Byte, e: Byte)
    requires Reads(s, shift, [], t) && t.mode == NORMAL && 0x21 <= c <= 0x7e && 0x20 <= e <= 0x7f
    ensures t.ss == 0 && TakesTwoBytes(t.g[t.gl]) ==> Reads(s, shift + [c, e], [Sym(t.g[t.gl], c, e)], t)
    ensures t.ss == 0 && TakesTwoBytes(t.g[t.gr]) ==>
              Reads(s, shift + [0x80 + c, 0x80 + e], [Sym(t.g[t.gr], c, e)], t)
    ensures t.ss != 0 && TakesTwoBytes(t.g[t.ss]) ==> Reads(s, shift + [c, e], [Sym(t.g[t.ss], c, e)], t.(ss := 0))
  {
    hide *;
    GraphicPair(t, c, e);
    ReadsThen(s, shift, t, [c, e], [Sym(t.g[t.gl], c, e)], t);
    ReadsThen(s, shift, t, [0x80 + c, 0x80 + e], [Sym(t.g[t.gr], c, e)], t);
    ReadsThen(s, shift, t, [c, e], [Sym(t.g[t.ss], c, e)], t.(ss := 0));
  }
}
