// The same for designations, control characters and control sequences: which of
// the four sets each designation replaces, what is passed through, and where each
// sequence ends.

module AribWireControl {
  import opened Base
  import opened AribDecoder
  import opened AribSimulation
  import opened AribWireIn

  // ----- Designations -----

  predicate IsOneByteFinal(f: Byte) { f in {0x40, 0x4a, 0x49} || 0x30 <= f <= 0x38 }

  predicate IsTwoByteFinal(f: Byte) { f in {0x42, 0x39, 0x3a, 0x3b} }

  // Every mode but CTRL_SEQ, where NUL gives the sequence up and LF resets all.
  lemma Abandoned(s: State)
    ensures Reads(s, [0x00], [], s.(mode := NORMAL))
    ensures s.mode != CTRL_SEQ ==>
              Reads(s, [0x0a], [Through(0x0a)], State(NORMAL, 0, 2, 0, 0, 0, 0, [0x42, 0x40, 0x30, 0x31]))
  {
    Run1(s, 0x00);
    Run1(s, 0x0a);
  }

  // ESC: in front of the last byte of a shift or of a designation.
  lemma Escape(s: State, b: Byte)
    requires s.mode == NORMAL && b != 0x00 && b != 0x0a
    ensures Reads(s, [0x1b], [], s.(mode := ESCAPE))
    ensures b in {0x6e, 0x6f, 0x7e, 0x7d, 0x7c, 0x24, 0x28, 0x29, 0x2a, 0x2b} || Rejects(s, [0x1b, b], s)
  {
    Run1(s, 0x1b);
    Run2(s, 0x1b, b);
  }

  // ESC 0x28+n F: a one-byte set to Gn.
  lemma DesignateOneByte(s: State, n: Two, f: Byte)
    requires s.mode == NORMAL && f != 0x00 && f != 0x0a && f != 0x20
    ensures if IsOneByteFinal(f) then Reads(s, [0x1b, 0x28 + n, f], [], s.(g := s.g[n := f]))
            else Rejects(s, [0x1b, 0x28 + n, f], s)
  {
    Run3(s, 0x1b, 0x28 + n, f);
  }

  lemma MultiByteChosen(s: State, n: Two)
    requires s.mode == NORMAL
    ensures Reads(s, [0x1b, 0x24], [], s.(mode := DESIGNATE_MB))
    ensures Reads(s, [0x1b, 0x24, 0x28 + n], [], s.(mode := G_SEL_MB, gidx := n))
    ensures Reads(s, [0x1b, 0x28 + n], [], s.(mode := G_SEL_1B, gidx := n))
  {
    Run2(s, 0x1b, 0x24);
    Run2(s, 0x1b, 0x28 + n);
    Run3(s, 0x1b, 0x24, 0x28 + n);
  }

  // ESC 0x24 F: a two-byte set to G0.
  lemma DesignateTwoByteToG0(s: State, f: Byte)
    requires s.mode == NORMAL && f != 0x00 && f != 0x0a && !(0x28 <= f <= 0x2b)
    ensures if IsTwoByteFinal(f) then Reads(s, [0x1b, 0x24, f], [], s.(g := s.g[0 := f]))
            else Rejects(s, [0x1b, 0x24, f], s)
  {
    Run3(s, 0x1b, 0x24, f);
  }

  // ESC 0x24 0x28+n F: a two-byte set to Gn.
  lemma DesignateTwoByte(s: State, n: Two, f: Byte)
    requires s.mode == NORMAL && f != 0x00 && f != 0x0a && f != 0x20
    ensures if IsTwoByteFinal(f) then Reads(s, [0x1b, 0x24, 0x28 + n, f], [], s.(g := s.g[n := f]))
            else Rejects(s, [0x1b, 0x24, 0x28 + n, f], s)
  {
    MultiByteChosen(s, n);
    var m := s.(mode := G_SEL_MB, gidx := n);
    Run1(m, f);
    ReadsThen(s, [0x1b, 0x24, 0x28 + n], m, [f], [], s.(g := s.g[n := f]));
    ReadsThen(s, [0x1b, 0x24, 0x28 + n], m, [f], [], s);
    assert [0x1b, 0x24, 0x28 + n] + [f] == [0x1b, 0x24, 0x28 + n, f];
  }

  // ESC 0x28+n 0x20 F: a set of downloaded one-byte characters, or the macros.
  lemma DesignateDownloaded(s: State, n: Two, f: Byte)
    requires s.mode == NORMAL && f != 0x00 && f != 0x0a
    ensures if 0x41 <= f <= 0x4f || f == 0x70 then Reads(s, [0x1b, 0x28 + n, 0x20, f], [], s.(g := s.g[n := 0x80 + f]))
            else Rejects(s, [0x1b, 0x28 + n, 0x20, f], s)
  {
    MultiByteChosen(s, n);
    var m := s.(mode := G_SEL_1B, gidx := n);
    Run2(m, 0x20, f);
    ReadsThen(s, [0x1b, 0x28 + n], m, [0x20, f], [], s.(g := s.g[n := if f < 0x80 then 0x80 + f else 0]));
    ReadsThen(s, [0x1b, 0x28 + n], m, [0x20, f], [], s);
    assert [0x1b, 0x28 + n] + [0x20, f] == [0x1b, 0x28 + n, 0x20, f];
  }

  // ESC 0x24 0x28+n 0x20 0x40: downloaded two-byte characters.
  lemma DesignateDownloadedTwoByte(s: State, n: Two, f: Byte)
    requires s.mode == NORMAL && f != 0x00 && f != 0x0a
    ensures if f == 0x40 then Reads(s, [0x1b, 0x24, 0x28 + n, 0x20, f], [], s.(g := s.g[n := 0xc0]))
            else Rejects(s, [0x1b, 0x24, 0x28 + n, 0x20, f], s)
  {
    MultiByteChosen(s, n);
    var m := s.(mode := G_SEL_MB, gidx := n);
    Run2(m, 0x20, f);
    ReadsThen(s, [0x1b, 0x24, 0x28 + n], m, [0x20, f], [], s.(g := s.g[n := 0xc0]));
    ReadsThen(s, [0x1b, 0x24, 0x28 + n], m, [0x20, f], [], s);
    assert [0x1b, 0x24, 0x28 + n] + [0x20, f] == [0x1b, 0x24, 0x28 + n, 0x20, f];
  }

  // ----- Control characters -----

  // Passed through: BEL, BS, CR, the spaces and DEL; 0xff is replaced.  All of
  // them end a single shift.
  lemma PassedThrough(s: State, b: Byte)
    requires s.mode == NORMAL
    ensures b in {0x07, 0x08, 0x0d, 0x20, 0x7f, 0xa0} ==> Reads(s, [b], [Through(b)], s.(ss := 0))
    ensures Reads(s, [0xff], [Unknown], s.(ss := 0))
  {
    Run1(s, b);
    Run1(s, 0xff);
  }

  // Passed over, even behind a single shift.
  lemma PassedOver(s: State, b: Byte)
    requires s.mode == NORMAL && (b in {0x09, 0x0b, 0x0c, 0x18, 0x1e, 0x1f, 0x99, 0x9a} || 0x80 <= b <= 0x8a)
    ensures Reads(s, [b], [], s)
  {
    Run1(s, b);
  }

  // Illegal.
  lemma IllegalControl(s: State, b: Byte)
    requires s.mode == NORMAL
    requires 0x01 <= b <= 0x06 || 0x10 <= b <= 0x15 || b == 0x17 || b == 0x1a || 0x8c <= b <= 0x8f
             || b in {0x96, 0x9c, 0x9e, 0x9f}
    ensures Rejects(s, [b], s)
  {
    Run1(s, b);
  }

  // ----- Control sequences -----

  predicate IsParameter(p: Byte) { 0x40 <= p <= 0x7f }

  lemma Counted(s: State, b: Byte)
    requires s.mode == NORMAL && b in {0x16, 0x8b, 0x91, 0x93, 0x94, 0x97, 0x98}
    ensures Reads(s, [b], [], s.(mode := CTRL_SEQ, skip := 1))
  {
    Run1(s, b);
  }

  lemma LastParameter(s: State, p: Byte)
    requires s.mode == NORMAL && p != 0x00
    ensures var m := s.(mode := CTRL_SEQ, skip := 1);
            if IsParameter(p) then Reads(m, [p], [], s) else Rejects(m, [p], s)
  {
    Run1(s.(mode := CTRL_SEQ, skip := 1), p);
  }

  // Controls with one parameter byte: it ends the sequence, also when illegal.
  lemma OneParameter(s: State, b: Byte, p: Byte)
    requires s.mode == NORMAL && b in {0x16, 0x8b, 0x91, 0x93, 0x94, 0x97, 0x98} && p != 0x00
    ensures if IsParameter(p) then Reads(s, [b, p], [], s) else Rejects(s, [b, p], s)
  {
    hide Reads, Rejects, IsParameter;
    Counted(s, b);
    LastParameter(s, p);
    ReadsThen(s, [b], s.(mode := CTRL_SEQ, skip := 1), [p], [], s);
    assert [b] + [p] == [b, p];
  }

  // The control with two: row and column.
  lemma TwoParameters(s: State, p: Byte, q: Byte)
    requires s.mode == NORMAL && p != 0x00 && q != 0x00
    ensures IsParameter(p) && IsParameter(q) ==> Reads(s, [0x1c, p, q], [], s)
    ensures IsParameter(p) && !IsParameter(q) ==> Rejects(s, [0x1c, p, q], s)
    ensures !IsParameter(p) ==> Rejects(s, [0x1c, p], s.(mode := CTRL_SEQ, skip := 1))
  {
    Run2(s, 0x1c, p);
    if IsParameter(p) { Run3(s, 0x1c, p, q); }
  }

  // The state that a control sequence of the open kinds is in.
  lemma Opened(s: State, b: Byte)
    requires s.mode == NORMAL && b in {0x90, 0x92, 0x95, 0x9b, 0x9d}
    ensures Reads(s, [b], [], s.(mode := CTRL_SEQ, skip := 0, prev := b))
  {
    Run1(s, b);
  }

  lemma OneOrTwo(s: State, b: Byte, p: Byte)
    requires s.mode == NORMAL && (b == 0x90 || b == 0x92) && p != 0x00
    ensures var m := s.(mode := CTRL_SEQ, skip := 0, prev := b);
            if IsParameter(p) then Reads(m, [p], [], s) && Reads(m, [0x20, p], [], s)
            else Rejects(m, [0x20, p], s) && (p != 0x20 ==> Rejects(m, [p], s))
  {
    var m := s.(mode := CTRL_SEQ, skip := 0, prev := b);
    Run1(m, p);
    Run2(m, 0x20, p);
  }

  // COL and CDC: one parameter byte, or 0x20 and one.
  lemma ColourAndConceal(s: State, b: Byte, p: Byte)
    requires s.mode == NORMAL && (b == 0x90 || b == 0x92) && p != 0x00
    ensures if IsParameter(p) then Reads(s, [b, p], [], s) && Reads(s, [b, 0x20, p], [], s)
            else Rejects(s, [b, 0x20, p], s) && (p != 0x20 ==> Rejects(s, [b, p], s))
  {
    hide Reads, Rejects, IsParameter;
    var m := s.(mode := CTRL_SEQ, skip := 0, prev := b);
    Opened(s, b);
    OneOrTwo(s, b, p);
    ReadsThen(s, [b], m, [p], [], s);
    ReadsThen(s, [b], m, [0x20, p], [], s);
    assert [b] + [p] == [b, p] && [b] + [0x20, p] == [b, 0x20, p];
  }

  // CSI and TIME: any number of parameter bytes of their own, and then an end.
  predicate IsListByte(b: Byte, p: Byte) {
    p == 0x3b || 0x30 <= p <= 0x39 || (b == 0x9d && p == 0x29)
  }

  lemma {:induction false} ParameterList(t: State, ps: seq<Byte>)
    requires t.mode == CTRL_SEQ && t.skip == 0 && (t.prev == 0x9b || t.prev == 0x9d)
    requires forall p <- ps :: IsListByte(t.prev, p)
    ensures Reads(t, ps, [], t)
    decreases |ps|
  {
    if ps != [] {
      assert ps[0] in ps && forall p <- ps[1..] :: p in ps;
      ParameterList(t, ps[1..]);
      ReadsByte(t, ps[0], [], t);
      ReadsThen(t, [ps[0]], t, ps[1..], [], t);
      assert [ps[0]] + ps[1..] == ps;
    }
  }

  lemma ListEnd(s: State, b: Byte, e: Byte)
    requires s.mode == NORMAL && (b == 0x9b || b == 0x9d) && e != 0x00
    ensures var t := s.(mode := CTRL_SEQ, skip := 0, prev := b);
            && (b == 0x9b && e in {0x5b, 0x5c, 0x6f} ==> Reads(t, [e], [], s))
            && (if IsParameter(e) then Reads(t, [0x20, e], [], s) else Rejects(t, [0x20, e], s))
            && (b == 0x9d ==> if IsParameter(e) then Reads(t, [0x28, e], [], s) else Rejects(t, [0x28, e], s))
            && (b == 0x9b && !IsListByte(b, e) && e !in {0x5b, 0x5c, 0x6f, 0x20} ==> Rejects(t, [e], s))
            && (b == 0x9d && !IsListByte(b, e) && e !in {0x20, 0x28} ==> Rejects(t, [e], s))
  {
    var t := s.(mode := CTRL_SEQ, skip := 0, prev := b);
    Run1(t, e);
    Run2(t, 0x20, e);
    if b == 0x9d { Run2(t, 0x28, e); }
  }

  // The list, and then an end of it.
  lemma ListThen(s: State, b: Byte, ps: seq<Byte>, end: seq<Byte>, gs: seq<Glyph>, t: State)
    requires s.mode == NORMAL && (b == 0x9b || b == 0x9d) && forall p <- ps :: IsListByte(b, p)
    ensures var m := s.(mode := CTRL_SEQ, skip := 0, prev := b);
            && (Reads(m, end, gs, t) ==> Reads(s, [b] + ps + end, gs, t))
            && (Rejects(m, end, t) ==> Rejects(s, [b] + ps + end, t))
  {
    hide Reads, Rejects, Alike;
    var m := s.(mode := CTRL_SEQ, skip := 0, prev := b);
    Opened(s, b);
    ParameterList(m, ps);
    ReadsThen(s, [b], m, ps, [], m);
    ReadsThen(s, [b] + ps, m, end, gs, t);
  }

  // CSI ends with 0x5b, 0x5c or 0x6f, or with 0x20 and a parameter byte.
  lemma ControlSequence(s: State, ps: seq<Byte>, e: Byte)
    requires s.mode == NORMAL && (forall p <- ps :: IsListByte(0x9b, p)) && e != 0x00
    ensures e in {0x5b, 0x5c, 0x6f} ==> Reads(s, [0x9b] + ps + [e], [], s)
    ensures if IsParameter(e) then Reads(s, [0x9b] + ps + [0x20, e], [], s)
            else Rejects(s, [0x9b] + ps + [0x20, e], s)
    ensures !IsListByte(0x9b, e) && e !in {0x5b, 0x5c, 0x6f, 0x20} ==> Rejects(s, [0x9b] + ps + [e], s)
  {
    hide Reads, Rejects, IsParameter;
    ListEnd(s, 0x9b, e);
    ListThen(s, 0x9b, ps, [e], [], s);
    ListThen(s, 0x9b, ps, [0x20, e], [], s);
  }

  // TIME ends with 0x20 or 0x28 and a parameter byte.
  lemma TimeControl(s: State, ps: seq<Byte>, e: Byte)
    requires s.mode == NORMAL && (forall p <- ps :: IsListByte(0x9d, p)) && e != 0x00
    ensures if IsParameter(e)
            then Reads(s, [0x9d] + ps + [0x20, e], [], s) && Reads(s, [0x9d] + ps + [0x28, e], [], s)
            else Rejects(s, [0x9d] + ps + [0x20, e], s) && Rejects(s, [0x9d] + ps + [0x28, e], s)
    ensures !IsListByte(0x9d, e) && e != 0x20 && e != 0x28 ==> Rejects(s, [0x9d] + ps + [e], s)
  {
    hide Reads, Rejects, IsParameter;
    ListEnd(s, 0x9d, e);
    ListThen(s, 0x9d, ps, [e], [], s);
    ListThen(s, 0x9d, ps, [0x20, e], [], s);
    ListThen(s, 0x9d, ps, [0x28, e], [], s);
  }

  // MACRO: any bytes but these four are passed over.
  predicate IsMacroByte(b: Byte) { b !in {0x00, 0x0a, 0x0d, 0x95} }

  lemma {:induction false} MacroBody(t: State, body: seq<Byte>)
    requires t.mode == CTRL_SEQ && t.skip == 0 && t.prev == 0x95
    requires forall b <- body :: IsMacroByte(b)
    ensures Reads(t, body, [], t)
    decreases |body|
  {
    if body != [] {
      assert body[0] in body && forall b <- body[1..] :: b in body;
      MacroBody(t, body[1..]);
      ReadsByte(t, body[0], [], t);
      ReadsThen(t, [body[0]], t, body[1..], [], t);
      assert [body[0]] + body[1..] == body;
    }
  }

  lemma MacroEnd(t: State, e: Byte)
    requires t.mode == CTRL_SEQ && t.skip == 0 && t.prev == 0x95 && e != 0x00
    ensures var s := t.(mode := NORMAL);
            if IsParameter(e) then Reads(t, [0x95, e], [], s) else Rejects(t, [0x95, e], s)
    ensures e == 0x0a || e == 0x0d ==>
              Reads(t, [e], [Through(e)], State(NORMAL, 0, 2, 0, 0, 0, 0, [0x42, 0x40, 0x30, 0x31]))
  {
    Run2(t, 0x95, e);
    Run1(t, e);
  }

  // A macro ends with MACRO and a parameter byte; LF or CR breaks it off, is
  // passed through and resets all.
  lemma Macro(s: State, body: seq<Byte>, e: Byte)
    requires s.mode == NORMAL && (forall b <- body :: IsMacroByte(b)) && e != 0x00
    ensures if IsParameter(e) then Reads(s, [0x95] + body + [0x95, e], [], s)
            else Rejects(s, [0x95] + body + [0x95, e], s)
    ensures e == 0x0a || e == 0x0d ==>
              Reads(s, [0x95] + body + [e], [Through(e)], State(NORMAL, 0, 2, 0, 0, 0, 0, [0x42, 0x40, 0x30, 0x31]))
  {
    var t := s.(mode := CTRL_SEQ, skip := 0, prev := 0x95);
    Opened(s, 0x95);
    MacroBody(t, body);
    MacroEnd(t, e);
    hide *;
    ReadsThen(s, [0x95], t, body, [], t);
    ScratchOnly(s, t, body, e);
  }

  lemma ScratchOnly(s: State, t: State, body: seq<Byte>, e: Byte)
    requires t == s.(mode := CTRL_SEQ, skip := 0, prev := 0x95) && s.mode == NORMAL
    requires Reads(s, [0x95] + body, [], t)
    ensures var n := t.(mode := NORMAL);
            && (Reads(t, [0x95, e], [], n) ==> Reads(s, [0x95] + body + [0x95, e], [], s))
            && (Rejects(t, [0x95, e], n) ==> Rejects(s, [0x95] + body + [0x95, e], s))
            && var d := State(NORMAL, 0, 2, 0, 0, 0, 0, [0x42, 0x40, 0x30, 0x31]);
               (Reads(t, [e], [Through(e)], d) ==> Reads(s, [0x95] + body + [e], [Through(e)], d))
  {
    hide Run;
    ReadsThen(s, [0x95] + body, t, [0x95, e], [], s);
    ReadsThen(s, [0x95] + body, t, [e], [Through(e)], State(NORMAL, 0, 2, 0, 0, 0, 0, [0x42, 0x40, 0x30, 0x31]));
  }
}
