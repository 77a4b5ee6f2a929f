// The body of the from-direction loop of contrib/gconv/arib-std-b24.c on the
// fields it updates, proved against AribCharConv.DecodeStep.

module AribDecoderLoop {
  import opened Base
  import opened AribDecoder
  import opened AribCharConv

  // The outcomes of an iconv loop.
  datatype Status = OK | ILLEGAL_INPUT

  class FromLoop {
    var mode: Mode
    var gl: Two
    var gr: Two
    var ss: Two
    var gidx: Two
    var skip: Byte
    var prev: Byte
    const g: array<Byte>
    const jis: Jis
    var out: seq<Ucs>  // what was written through outptr

    ghost predicate Valid()
      reads this, g
    {
      g.Length == 4 && Inv(View())
    }

    ghost function View(): State
      requires g.Length == 4
      reads this, g
    {
      State(mode, gl, gr, ss, gidx, skip, prev, g[..])
    }

    // The object is where result r leads, r's glyphs rendered behind out0.
    ghost predicate Is(r: Result, out0: seq<Ucs>, status: Status)
      reads this, g
    {
      && g.Length == 4
      && SafeResult(r)
      && View() == r.st
      && out == out0 + Render(r.out, jis).cps
      && (status == OK <==> r.ok && Render(r.out, jis).ok)
    }

    constructor (jis: Jis)
      ensures Valid() && fresh(g) && View() == DEFAULT && out == [] && this.jis == jis
    {
      this.jis := jis;
      mode, gl, gr, ss, gidx, skip, prev := NORMAL, 0, 2, 0, 0, 0, 0;
      g := new Byte[4][KANJI, ASCII, HIRAGANA, KATAKANA];
      out := [];
    }

    // st = def_state_from
    method Reset()
      requires g.Length == 4
      modifies this, g
      ensures View() == DEFAULT && out == old(out)
    {
      mode, gl, gr, ss, gidx, skip, prev := NORMAL, 0, 2, 0, 0, 0, 0;
      g[0], g[1], g[2], g[3] := KANJI, ASCII, HIRAGANA, KATAKANA;
    }

    method Put32(ch: Ucs)
      modifies this`out
      ensures out == old(out) + [ch]
    {
      out := out + [ch];
    }

    // b24_char_conv, then writing what it found.
    method Convert(gset: Byte, c1: Byte, c2: Byte) returns (status: Status)
      requires ProperGlyph(Sym(gset, c1, c2))
      modifies this`out
      ensures out == old(out) + CharConv(gset, c1, c2, jis)
      ensures status == OK <==> CharConv(gset, c1, c2, jis) != []
    {
      var found := CharConv(gset, c1, c2, jis);
      if |found| == 0 { return ILLEGAL_INPUT; }
      var i := 0;
      while i < |found|
        invariant 0 <= i <= |found| && out == old(out) + found[..i]
      {
        Put32(found[i]);
        i := i + 1;
      }
      return OK;
    }

    method ControlSequence(ch: Byte) returns (status: Status)
      requires Valid() && mode == CTRL_SEQ && ch != 0
      modifies this, g
      ensures Is(StepControlSequence(old(View()), ch), old(out), status)
    {
      StepControlSequenceInv(View(), ch);
      status := OK;
      if skip != 0 {
        skip := skip - 1;
        if skip == 0 { mode := NORMAL; }
        if ch < 0x40 || ch > 0x7f { status := ILLEGAL_INPUT; }
      } else if prev == MACRO_CTRL {
        if ch == MACRO_CTRL {
          skip := 1;
        } else if ch == LF || ch == CR {
          Reset();
          Put32(ch);
        }
      } else if prev == CSI && (ch == 0x5b || ch == 0x5c || ch == 0x6f) {
        mode := NORMAL;
      } else if prev == TIME || prev == CSI {
        if ch == 0x20 || (prev == TIME && ch == 0x28) {
          skip := 1;
        } else if !((prev == TIME && ch == 0x29) || ch == 0x3b || (0x30 <= ch <= 0x39)) {
          mode := NORMAL;
          status := ILLEGAL_INPUT;
        }
      } else if prev == COL || prev == CDC {
        if ch == 0x20 {
          skip := 1;
        } else {
          mode := NORMAL;
          if ch < 0x40 || ch > 0x7f { status := ILLEGAL_INPUT; }
        }
      }
    }

    method Escape(ch: Byte) returns (status: Status)
      requires Valid() && mode == ESCAPE && ch != 0 && ch != LF
      modifies this, g
      ensures Is(StepEscape(old(View()), ch), old(out), status)
    {
      status := OK;
      if ch == LS2 || ch == LS3 {
        mode := NORMAL;
        gl := if ch == LS2 then 2 else 3;
        ss := 0;
      } else if ch == LS1R || ch == LS2R || ch == LS3R {
        mode := NORMAL;
        gr := if ch == LS1R then 1 else if ch == LS2R then 2 else 3;
        ss := 0;
      } else if ch == 0x24 {
        mode := DESIGNATE_MB;
      } else if 0x28 <= ch <= 0x2b {
        mode := G_SEL_1B;
        gidx := ch - 0x28;
      } else {
        mode := NORMAL;
        status := ILLEGAL_INPUT;
      }
    }

    method Designation(ch: Byte) returns (status: Status)
      requires Valid() && mode in {DESIGNATE_MB, G_SEL_1B, G_SEL_MB, DRCS_SEL_1B, DRCS_SEL_MB}
      requires ch != 0 && ch != LF
      modifies this, g
      ensures Is(StepDesignation(old(View()), ch), old(out), status)
    {
      StepDesignationInv(View(), ch);
      status := OK;
      if mode == DESIGNATE_MB {
        if IsMultiByteDesignator(ch) {
          mode := NORMAL;
          g[0] := ch;
        } else if 0x28 <= ch <= 0x2b {
          mode := G_SEL_MB;
          gidx := ch - 0x28;
        } else {
          mode := NORMAL;
          status := ILLEGAL_INPUT;
        }
      } else if mode == G_SEL_1B {
        if IsSingleByteDesignator(ch) {
          g[gidx] := ch;
          mode := NORMAL;
        } else if ch == 0x20 {
          mode := DRCS_SEL_1B;
        } else {
          mode := NORMAL;
          status := ILLEGAL_INPUT;
        }
      } else if mode == G_SEL_MB {
        if IsMultiByteDesignator(ch) {
          g[gidx] := ch;
          mode := NORMAL;
        } else if ch == 0x20 {
          mode := DRCS_SEL_MB;
        } else {
          mode := NORMAL;
          status := ILLEGAL_INPUT;
        }
      } else if mode == DRCS_SEL_1B {
        mode := NORMAL;
        if ch == 0x70 || 0x41 <= ch <= 0x4f { g[gidx] := ch + 0x80; } else { status := ILLEGAL_INPUT; }
      } else {
        mode := NORMAL;
        if ch == 0x40 { g[gidx] := ch + 0x80; } else { status := ILLEGAL_INPUT; }
      }
    }

    method SecondByte(ch: Byte) returns (status: Status)
      requires Valid() && mode == MB_2ND && ch != 0 && ch != LF
      modifies this, g
      ensures Is(StepSecondByte(old(View()), ch), old(out), status)
    {
      StepSecondByteInv(View(), ch);
      var idx := if ss != 0 then ss else if ch >= 0x80 then gr else gl;
      mode := NORMAL;
      ss := 0;
      if IsControl(ch) { return ILLEGAL_INPUT; }
      if (prev >= 0x80) != (ch >= 0x80) { return ILLEGAL_INPUT; }
      status := Convert(g[idx], prev % 128, ch % 128);
    }

    method C0C1(ch: Byte) returns (status: Status)
      requires Valid() && mode == NORMAL && ch != 0 && ch != LF && IsControl(ch)
      modifies this
      ensures Is(StepC0C1(old(View()), ch), old(out), status)
    {
      StepC0C1Inv(View(), ch);
      status := OK;
      if ch == ESC {
        mode := ESCAPE;
      } else if ch == SS2 {
        ss := 2;
      } else if ch == SS3 {
        ss := 3;
      } else if ch == LS0 {
        ss := 0;
        gl := 0;
      } else if ch == LS1 {
        ss := 0;
        gl := 1;
      } else if ch == BEL || ch == BS || ch == CR {
        ss := 0;
        Put32(ch);
      } else if ch == 0x09 || ch == 0x0b || ch == 0x0c || ch == 0x18 || ch == 0x1e || ch == 0x1f
                || 0x80 <= ch <= 0x8a || ch == 0x99 || ch == 0x9a {
        // skipped
      } else if ch == 0x16 || ch == 0x8b || ch == 0x91 || ch == 0x93 || ch == 0x94 || ch == 0x97 || ch == 0x98 {
        mode := CTRL_SEQ;
        skip := 1;
      } else if ch == 0x1c {
        mode := CTRL_SEQ;
        skip := 2;
      } else if ch == COL || ch == CDC || ch == MACRO_CTRL || ch == CSI || ch == TIME {
        mode := CTRL_SEQ;
        skip := 0;
        prev := ch;
      } else {
        status := ILLEGAL_INPUT;
      }
    }

    method Normal(ch: Byte) returns (status: Status)
      requires Valid() && mode == NORMAL && ch != 0 && ch != LF
      modifies this
      ensures Is(StepNormal(old(View()), ch), old(out), status)
    {
      StepNormalInv(View(), ch);
      status := OK;
      if IsControl(ch) {
        status := C0C1(ch);
      } else if ch % 128 == 0x20 || ch == 0x7f {
        ss := 0;
        Put32(ch);
      } else if ch == 0xff {
        ss := 0;
        Put32(UNKNOWN_10646_CHAR);
      } else if ss > 0 && ch >= 0x80 {
        status := ILLEGAL_INPUT;
      } else {
        var idx := if ss != 0 then ss else if ch >= 0x80 then gr else gl;
        var gset := g[idx];
        if gset == DRCS0 || gset == KANJI || gset == JISX0213_1 || gset == JISX0213_2 || gset == EXTRA_SYMBOLS {
          mode := MB_2ND;
          prev := ch;
        } else {
          ss := 0;
          status := Convert(gset, ch % 128, 0);
        }
      }
    }

    // The loop body for one byte of input.
    method Body(ch: Byte) returns (status: Status)
      requires Valid()
      modifies this, g
      ensures Valid()
      ensures Is(Step(old(View()), ch), old(out), status)
    {
      StepInv(View(), ch);
      if ch == 0 {
        mode := NORMAL;
        status := OK;
      } else if mode == CTRL_SEQ {
        status := ControlSequence(ch);
      } else if ch == LF {
        Reset();
        Put32(ch);
        status := OK;
      } else if mode == ESCAPE {
        status := Escape(ch);
      } else if mode == MB_2ND {
        status := SecondByte(ch);
      } else if mode == NORMAL {
        status := Normal(ch);
      } else {
        status := Designation(ch);
      }
    }

    // The loop: all of the input, or up to the first illegal byte, where inptr
    // is left.
    method Loop(input: seq<Byte>) returns (status: Status, inptr: nat)
      requires Valid()
      modifies this, g
      ensures Valid()
      ensures var d := Decode(old(View()), input, jis);
              View() == d.st && out == old(out) + d.cps && (status == OK <==> d.ok)
      ensures inptr <= |input| && (status == OK <==> inptr == |input|)
      ensures Decode(old(View()), input[..inptr], jis).ok
      ensures inptr < |input| ==> !Decode(old(View()), input[..inptr + 1], jis).ok
    {
      hide Step, Decode, DecodeStep, Inv, Consumed;
      ConsumedIsFirst(View(), input, jis);
      inptr := 0;
      status := OK;
      ghost var whole := Decode(View(), input, jis);
      assert input[0..] == input;
      while inptr < |input|
        invariant Valid() && 0 <= inptr <= |input| && status == OK
        invariant var rest := Decode(View(), input[inptr..], jis);
                  whole.st == rest.st && whole.ok == rest.ok && old(out) + whole.cps == out + rest.cps
        invariant Consumed(old(View()), input, jis) == inptr + Consumed(View(), input[inptr..], jis)
      {
        ghost var s, before := View(), out;
        DecodeAt(s, input, inptr, jis);
        status := Body(input[inptr]);
        assert out == before + DecodeStep(s, input[inptr], jis).cps;
        if status != OK { return; }
        inptr := inptr + 1;
        AppendAssoc(before, DecodeStep(s, input[inptr - 1], jis).cps, Decode(View(), input[inptr..], jis).cps);
      }
      assert input[inptr..] == [];
      DecodeNothing(View(), jis);
    }
  }

  lemma DecodeNothing(s: State, jis: Jis)
    requires Inv(s)
    ensures Decode(s, [], jis) == Decoded(s, [], true) && Consumed(s, [], jis) == 0
  {
  }

  // Decoding from a position on: one step, then from the next position on.
  lemma DecodeAt(s: State, input: seq<Byte>, i: nat, jis: Jis)
    requires Inv(s) && i < |input|
    ensures var r := DecodeStep(s, input[i], jis);
            && Inv(r.st)
            && r.st == Step(s, input[i]).st
            && SafeResult(Step(s, input[i]))
            && r.cps == Render(Step(s, input[i]).out, jis).cps
            && r.ok == (Step(s, input[i]).ok && Render(Step(s, input[i]).out, jis).ok)
            && var d := Decode(s, input[i..], jis);
               var rest := Decode(r.st, input[i + 1..], jis);
               && (if r.ok then d.st == rest.st && d.ok == rest.ok && d.cps == r.cps + rest.cps else d == r)
               && Consumed(s, input[i..], jis) == if r.ok then 1 + Consumed(r.st, input[i + 1..], jis) else 0
  {
    hide Step, Inv;
    StepInv(s, input[i]);
    assert input[i..][0] == input[i] && input[i..][1..] == input[i + 1..];
  }
}
