// The to-direction loop of contrib/gconv/arib-std-b24.c on the fields and the
// output buffer it updates, proved against AribEncoder.

module AribEncoderLoop {
  import opened Base
  import opened AribDecoder
  import opened AribCharConv
  import opened AribEncoder

  datatype Status = OK | FULL_OUTPUT | ILLEGAL_INPUT

  // struct state_to, and what memset leaves of it.
  datatype StateTo = StateTo(sh: Shadow, prev: nat)

  const CLEARED: StateTo := StateTo(Shadow(0, 0, KANJI_idx, KANJI_idx), 0)

  // A state and the output that the functions taking it write to.
  class ToLoop {
    var gl: Bit
    var gr: Bit
    var g2: Idx
    var g3: Idx
    var prev: nat
    const out: array<Byte>
    var outptr: nat  // outend is out.Length
    const jis: Jis

    ghost predicate Valid()
      reads this
    {
      outptr <= out.Length
    }

    ghost function View(): Shadow
      reads this
    {
      Shadow(gl, gr, g2, g3)
    }

    ghost function Written(): seq<Byte>
      requires Valid()
      reads this, out
    {
      out[..outptr]
    }

    // From a shadow, a buffer and an output: e was put out, if it fitted; else
    // nothing changed.
    twostate predicate Emitted(e: Emission, status: Status)
      requires old(Valid())
      reads this, out
    {
      && Valid()
      && (status == OK || status == FULL_OUTPUT)
      && (status == OK <==> |old(Written())| + |e.bytes| <= out.Length)
      && Written() == old(Written()) + (if status == OK then e.bytes else [])
      && View() == (if status == OK then e.sh else old(View()))
      && (status == FULL_OUTPUT ==> out[..] == old(out[..]))
    }

    constructor (out: array<Byte>, outptr: nat, jis: Jis, st: StateTo)
      requires outptr <= out.Length
      ensures Valid() && this.out == out && this.jis == jis && this.outptr == outptr
      ensures View() == st.sh && prev == st.prev
    {
      this.out, this.outptr, this.jis := out, outptr, jis;
      gl, gr, g2, g3, prev := st.sh.gl, st.sh.gr, st.sh.g2, st.sh.g3, st.prev;
    }

    // INIT_PARAMS, behind the copy: a cleared state is the default one.
    method InitParams()
      modifies this
      ensures outptr == old(outptr)
      ensures View() == (if old(g2) == KANJI_idx then DEFAULT_SHADOW else old(View()))
      ensures prev == (if old(g2) == KANJI_idx then 0 else old(prev))
    {
      if g2 == KANJI_idx {
        gl, gr, g2, g3, prev := 0, 0, HIRAGANA_idx, KATAKANA_idx, 0;
      }
    }

    // *op++ = b
    method Put(b: Byte)
      requires Valid() && outptr < out.Length
      modifies this`outptr, out
      ensures Valid() && outptr == old(outptr) + 1
      ensures Written() == old(Written()) + [b]
    {
      out[outptr] := b;
      outptr := outptr + 1;
    }

    // A sequence of *op++ = b
    method PutAll(bs: seq<Byte>)
      requires Valid() && outptr + |bs| <= out.Length
      modifies this`outptr, out
      ensures Valid() && Written() == old(Written()) + bs
    {
      var i := 0;
      while i < |bs|
        invariant 0 <= i <= |bs| && outptr == old(outptr) + i && Valid()
        invariant Written() == old(Written()) + bs[..i]
      {
        Put(bs[i]);
        i := i + 1;
      }
    }

    method OutAscii(ch: Byte) returns (status: Status)
      requires Valid()
      modifies this, out
      ensures Emitted(EmitAscii(old(View()), ch), status)
      ensures prev == if status == OK && (ch == 0 || ch == LF) then 0 else old(prev)
    {
      var escSeqs := 0;
      if !IsControl(ch) && gl == 0 && ch != 0x20 && ch != 0x7f && ch != 0xa0 { escSeqs := escSeqs + 1; }
      if outptr + escSeqs + 1 > out.Length { return FULL_OUTPUT; }
      if escSeqs > 0 {
        Put(LS1);
        gl := 1;
      }
      Put(ch);
      if ch == 0 || ch == LF {
        gl, gr, g2, g3, prev := 0, 0, HIRAGANA_idx, KATAKANA_idx, 0;
      }
      return OK;
    }

    // out_jisx0201 and out_katakana, which differ in the set and the byte.
    method OutG3(idx: Idx, final: Byte, b: Byte) returns (status: Status)
      requires Valid()
      modifies this, out
      ensures Emitted(EmitG3(old(View()), idx, final, b), status) && prev == old(prev)
    {
      var escSeqs := 0;
      if g3 != idx { escSeqs := escSeqs + 3; }
      if gr == 0 { escSeqs := escSeqs + 2; }
      if outptr + escSeqs + 1 > out.Length { return FULL_OUTPUT; }
      ghost var w := Written();
      ghost var a: seq<Byte> := if escSeqs >= 3 then [ESC, 0x2b, final] else [];
      if escSeqs >= 3 {
        PutAll([ESC, 0x2b, final]);
        g3 := idx;
      }
      assert Written() == w + a;
      ghost var c: seq<Byte> := if escSeqs == 2 || escSeqs == 5 then [ESC, LS3R] else [];
      if escSeqs == 2 || escSeqs == 5 {
        PutAll([ESC, LS3R]);
        gr := 1;
      }
      assert Written() == w + a + c;
      Put(b);
      ThreeParts(w, a, c, [b]);
      return OK;
    }

    method OutHiragana(c: Byte) returns (status: Status)
      requires Valid() && c < 0x80
      modifies this, out
      ensures Emitted(EmitG2(old(View()), HIRAGANA_idx, HIRAGANA, 0x80 + c), status) && prev == old(prev)
    {
      var escSeqs := 0;
      if g2 != HIRAGANA_idx { escSeqs := escSeqs + 3; }
      if gr == 1 { escSeqs := escSeqs + 2; }
      if outptr + escSeqs + 1 > out.Length { return FULL_OUTPUT; }
      ghost var w := Written();
      ghost var a: seq<Byte> := if escSeqs >= 3 then [ESC, 0x2a, HIRAGANA] else [];
      if escSeqs >= 3 {
        PutAll([ESC, 0x2a, HIRAGANA]);
        g2 := HIRAGANA_idx;
      }
      assert Written() == w + a;
      ghost var l: seq<Byte> := if escSeqs == 2 || escSeqs == 5 then [ESC, LS2R] else [];
      if escSeqs == 2 || escSeqs == 5 {
        PutAll([ESC, LS2R]);
        gr := 0;
      }
      assert Written() == w + a + l;
      Put(0x80 + c);
      ThreeParts(w, a, l, [0x80 + c]);
      return OK;
    }

    method OutKanaPunc(i: nat) returns (status: Status)
      requires Valid() && i < 10
      modifies this, out
      ensures Emitted(Emit(old(View()), Punc(i)), status) && prev == old(prev)
    {
      if i < 2 {
        status := OutHiragana(0x77 + i);
        return;
      }
      var k := i - 2;
      if k >= 2 {
        // common to both sets: guess which is used currently
        if gr == 0 && g2 == HIRAGANA_idx {
          status := OutHiragana(0x77 + k);
          return;
        } else if gr == 1 && g3 == KATAKANA_idx {
          status := OutG3(KATAKANA_idx, KATAKANA, 0xf7 + k);
          return;
        } else if g2 == HIRAGANA_idx && g3 != KATAKANA_idx {
          status := OutHiragana(0x77 + k);
          return;
        }
      }
      status := OutG3(KATAKANA_idx, KATAKANA, 0xf7 + k);
    }

    method OutKanji(code: nat) returns (status: Status)
      requires Valid() && (IsCode(code) || code == 0)
      modifies this, out
      ensures Emitted(Emit(old(View()), Kanji(code)), status) && prev == old(prev)
    {
      var escSeqs := 0;
      if gl != 0 { escSeqs := escSeqs + 1; }
      if outptr + escSeqs + 2 > out.Length { return FULL_OUTPUT; }
      if gl != 0 {
        Put(LS0);
        gl := 0;
      }
      PutAll([code / 256 % 128, code % 128]);
      return OK;
    }

    method OutJisx0213(code: nat, setIdx: Idx) returns (status: Status)
      requires Valid() && IsCode(code) && (setIdx == JISX0213_1_idx || setIdx == JISX0213_2_idx)
      modifies this, out
      ensures Emitted(Emit(old(View()), X0213(code, setIdx == JISX0213_2_idx)), status) && prev == old(prev)
    {
      var escSeqs := 0;
      if g2 != setIdx { escSeqs := escSeqs + 4; }
      if gr != 0 { escSeqs := escSeqs + 1; }
      if outptr + escSeqs + 2 > out.Length { return FULL_OUTPUT; }
      ghost var w := Written();
      ghost var final := if setIdx == JISX0213_1_idx then JISX0213_1 else JISX0213_2;
      ghost var a: seq<Byte> := if escSeqs >= 4 then [ESC, 0x24, 0x2a, final] else [];
      if escSeqs >= 4 {
        PutAll([ESC, 0x24, 0x2a, if setIdx == JISX0213_1_idx then JISX0213_1 else JISX0213_2]);
        g2 := JISX0213_1_idx;
      }
      assert Written() == w + a;
      ghost var pair := EmitPair(if gr != 0 then [SS2] else [], code);
      if gr != 0 {
        PutAll([SS2, code / 256, code % 256]);
      } else {
        PutAll([0x80 + code / 256, 0x80 + code % 256]);
      }
      AppendAssoc(w, a, pair);
      return OK;
    }

    method OutExtsym(code: nat) returns (status: Status)
      requires Valid() && IsCode(code)
      modifies this, out
      ensures Emitted(Emit(old(View()), ExtSym(code)), status) && prev == old(prev)
    {
      var escSeqs := 0;
      if g3 != EXTRA_SYMBOLS_idx { escSeqs := escSeqs + 4; }
      if gr == 0 { escSeqs := escSeqs + 1; }
      if outptr + escSeqs + 2 > out.Length { return FULL_OUTPUT; }
      ghost var w := Written();
      ghost var a: seq<Byte> := if escSeqs >= 4 then [ESC, 0x24, 0x2b, EXTRA_SYMBOLS] else [];
      if escSeqs >= 4 {
        PutAll([ESC, 0x24, 0x2b, EXTRA_SYMBOLS]);
        g3 := EXTRA_SYMBOLS_idx;
      }
      assert Written() == w + a;
      ghost var pair := EmitPair(if gr == 0 then [SS3] else [], code);
      if gr == 0 {
        PutAll([SS3, code / 256, code % 256]);
      } else {
        PutAll([0x80 + code / 256, 0x80 + code % 256]);
      }
      AppendAssoc(w, a, pair);
      return OK;
    }

    method OutBuffered() returns (status: Status)
      requires Valid() && ValidPrev(prev)
      modifies this, out
      ensures Emitted(if old(prev) == 0 then Emission([], old(View())) else Emit(old(View()), Buffered(old(prev))),
                      status)
      ensures prev == 0
    {
      if prev == 0 { return OK; }
      SevenOfSeven(prev);
      if prev >= 0x10000 {
        status := OutJisx0213(Seven(prev), JISX0213_1_idx);
      } else if prev / 256 % 128 == 0x24 {
        status := OutHiragana(prev % 128);
      } else if prev / 256 % 128 == 0x25 {
        status := OutG3(KATAKANA_idx, KATAKANA, 0x80 + prev % 128);
      } else {
        status := OutKanji(Seven(prev));
      }
      prev := 0;
    }

    // The position of a kana punctuation mark in hira_punc and then kata_punc, or -1.
    method KanaPunc(ch: Ucs) returns (r: int)
      ensures if IsKanaPunc(ch).Some? then r == IsKanaPunc(ch).value else r == -1
    {
      var i := 0;
      while i < 2
        invariant 0 <= i <= 2
        invariant forall k :: 0 <= k < i ==> ch != HiraPunc(k)
      {
        if ch == HiraPunc(i) { return i; }
        i := i + 1;
      }
      assert ch != HiraPunc(0) && ch != HiraPunc(1);
      i := 0;
      while i < 8
        invariant 0 <= i <= 8
        invariant forall k :: 0 <= k < i ==> ch != KataPunc(k)
      {
        if ch == KataPunc(i) { return i + 2; }
        i := i + 1;
      }
      assert ch != KataPunc(0) && ch != KataPunc(1) && ch != KataPunc(2) && ch != KataPunc(3);
      assert ch != KataPunc(4) && ch != KataPunc(5) && ch != KataPunc(6) && ch != KataPunc(7);
      return -1;
    }

    // The search of comp_table_data for the buffered base and ch.
    method FindComposed(ch: Ucs) returns (idx: nat, len: nat)
      ensures len > 0 ==> idx < COMP_TABLE_LEN && Composed(prev, ch) == Some(CompTable(idx).1)
      ensures len == 0 ==> Composed(prev, ch) == None
    {
      hide CompTable, Seven;
      idx, len := CompStart(ch), CompLen(ch);
      while len > 0
        invariant 0 <= len && idx + len == CompStart(ch) + CompLen(ch)
        invariant FindBase(idx, len, Seven(prev)) == FindBase(CompStart(ch), CompLen(ch), Seven(prev))
        decreases len
      {
        if CompTable(idx).0 == Seven(prev) { break; }
        idx, len := idx + 1, len - 1;
      }
    }

    // The code point itself, the buffer being empty.
    method Plain(ch: Ucs) returns (status: Status)
      requires Valid() && prev == 0 && CodesInRange(ch, jis)
      modifies this, out
      ensures ValidClass(Classify(ch, jis), jis.to213(ch))
      ensures match Classify(ch, jis)
              case Direct(u) => Emitted(Emit(old(View()), u), status) && prev == 0
              case Buffer(p) => Emitted(Emission([], old(View())), OK) && status == OK && prev == p
              case Dropped => Emitted(Emission([], old(View())), OK) && status == OK && prev == 0
              case Unencodable => Emitted(Emission([], old(View())), OK) && status == ILLEGAL_INPUT && prev == 0
    {
      ClassifyValid(ch, jis);
      if ch <= 0xa0 {
        if !IsControl(ch) || ch == 0 || ch == LF || ch == CR || ch == BS {
          status := OutAscii(ch);
        } else {
          status := ILLEGAL_INPUT;
        }
        return;
      }
      if ToJisx0201(ch).Some? {
        var b := ToJisx0201(ch).value;
        if b < 0x80 { status := OutAscii(b); } else { status := OutG3(JIS0201_KATA_idx, JIS0201_KATA, b); }
        return;
      }
      var r := KanaPunc(ch);
      if r >= 0 {
        status := OutKanaPunc(r);
        return;
      }
      hide Emit;
      status := PlainJis(ch);
    }

    method PlainJis(ch: Ucs) returns (status: Status)
      requires Valid() && prev == 0 && CodesInRange(ch, jis)
      modifies this, out
      ensures ValidClass(ClassifyJis(ch, jis), jis.to213(ch))
      ensures match ClassifyJis(ch, jis)
              case Direct(u) => Emitted(Emit(old(View()), u), status) && prev == 0
              case Buffer(p) => Emitted(Emission([], old(View())), OK) && status == OK && prev == p
              case Dropped => Emitted(Emission([], old(View())), OK) && status == OK && prev == 0
              case Unencodable => Emitted(Emission([], old(View())), OK) && status == ILLEGAL_INPUT && prev == 0
    {
      ClassifyJisValid(ch, jis);
      var jch := jis.to213(ch);
      hide Seven, MayCompose, IsPlane2;
      match jis.to208(ch) {
        case Some((b0, b1)) =>
          if MayCompose(jch) {
            prev := Seven(jch);
            return OK;
          }
          if b0 == 0x24 {
            status := OutHiragana(b1);
          } else if b0 == 0x25 {
            status := OutG3(KATAKANA_idx, KATAKANA, 0x80 + b1);
          } else if IsNonspacing(jch) {
            status := OutJisx0213(jch, JISX0213_1_idx);
          } else {
            status := OutKanji(jch);
          }
          return;
        case None =>
      }
      if MayCompose(jch) {
        prev := 0x10000 + Seven(jch);
        return OK;
      }
      match jis.extsym(ch) {
        case Some(code) =>
          status := OutExtsym(code);
          return;
        case None =>
      }
      if jch != 0 {
        status := OutJisx0213(Seven(jch), if IsPlane2(jch) then JISX0213_2_idx else JISX0213_1_idx);
      } else if IsTag(ch) {
        status := OK;
      } else {
        status := ILLEGAL_INPUT;
      }
    }

    // From an output w: the units of a turn were put out, or a part of their
    // bytes if they did not fit.
    ghost predicate After(w: seq<Byte>, sh: Shadow, t: Turn, status: Status)
      requires AllValid(t.us)
      reads this, out
    {
      var e := EmitAll(sh, t.us);
      && Valid()
      && (status == FULL_OUTPUT <==> |w| + |e.bytes| > out.Length)
      && (status == FULL_OUTPUT ==> w <= Written() <= w + e.bytes)
      && (status != FULL_OUTPUT ==>
            Written() == w + e.bytes && View() == e.sh && prev == t.prev && (status == OK <==> t.ok))
    }

    // The same for the loop, which also ends when the output is full before all
    // of the input is used.
    ghost predicate AfterAll(w: seq<Byte>, sh: Shadow, t: Turn, status: Status)
      requires AllValid(t.us)
      reads this, out
    {
      var e := EmitAll(sh, t.us);
      && Valid()
      && (|w| + |e.bytes| > out.Length ==> status == FULL_OUTPUT)
      && (status == FULL_OUTPUT ==> |w| + |e.bytes| >= out.Length && w <= Written() <= w + e.bytes)
      && (status != FULL_OUTPUT ==>
            Written() == w + e.bytes && View() == e.sh && prev == t.prev && (status == OK <==> t.ok))
    }

    // The loop body for one code point.
    method Body(ch: Ucs) returns (status: Status)
      requires Valid() && ValidPrev(prev) && CodesInRange(ch, jis)
      modifies this, out
      ensures var t := TakeTurn(old(prev), ch, jis);
              AllValid(t.us) && After(old(Written()), old(View()), t, status)
    {
      hide Emit, EmitAll, Classify, CodesInRange, Composed, AllValid, ValidUnit;
      TakeTurnValid(prev, ch, jis);
      ghost var w, sh, t := Written(), View(), TakeTurn(prev, ch, jis);
      if prev == 0 {
        status := Plain(ch);
        OneUnit(sh, t.us);
        return;
      }
      var idx, len := FindComposed(ch);
      if len > 0 {
        // the combined character is in plane 1
        ComposedIsCode(prev, ch);
        status := OutJisx0213(CompTable(idx).1, JISX0213_1_idx);
        prev := 0;
        OneUnit(sh, t.us);
        return;
      }
      ghost var u := Buffered(prev);
      status := OutBuffered();
      BufferedThen(sh, u, TurnPlain(ch, jis).us);
      if status != OK { return; }
      ghost var sh1 := View();
      status := Plain(ch);
      OneUnit(sh1, TurnPlain(ch, jis).us);
    }

    // All of the code points, or up to the first that cannot be encoded or
    // does not fit.  The loop around the body ends as soon as the output is full.
    method Loop(cps: seq<Ucs>) returns (status: Status)
      requires Valid() && ValidPrev(prev) && InRange(cps, jis)
      modifies this, out
      ensures var t := Turns(old(prev), cps, jis);
              AllValid(t.us) && AfterAll(old(Written()), old(View()), t, status)
    {
      hide TakeTurn, Turns, EmitAll, AllValid, InRange, CodesInRange, ValidPrev;
      ghost var whole := Turns(prev, cps, jis);
      ghost var w, sh := Written(), View();
      TurnsValid(prev, cps, jis);
      NoUnits(sh);
      var i := 0;
      ghost var done: seq<Unit> := [];
      assert cps[0..] == cps;
      status := OK;
      while i < |cps|
        invariant 0 <= i <= |cps| && Valid() && ValidPrev(prev) && status == OK
        invariant AllValid(done)
        invariant After(w, sh, Turn(done, prev, true), OK)
        invariant var rest := Turns(prev, cps[i..], jis);
                  whole.us == done + rest.us && whole.prev == rest.prev && whole.ok == rest.ok
      {
        InRangeFrom(cps, i, jis);
        if outptr >= out.Length {
          FullHere(w, sh, done, Turns(prev, cps[i..], jis).us, whole.us, Written());
          return FULL_OUTPUT;
        }
        TakeTurnValid(prev, cps[i], jis);
        ghost var t := TakeTurn(prev, cps[i], jis);
        ghost var rest := if t.ok then Turns(t.prev, cps[i + 1..], jis) else Turn([], t.prev, false);
        TurnsFrom(prev, cps, i, jis);
        status := Body(cps[i]);
        EmitParts(sh, done, t.us, rest.us, whole.us);
        AppendAssoc(w, EmitAll(sh, done).bytes, EmitAll(EmitAll(sh, done).sh, t.us).bytes);
        if status != OK {
          if status == FULL_OUTPUT { PartHere(w, sh, done, t.us, rest.us, whole.us, Written()); }
          assert !t.ok ==> whole.us == done + t.us;
          return;
        }
        done := done + t.us;
        i := i + 1;
      }
      NoTurns(prev, jis);
      assert cps[i..] == [];
      assert whole.us == done;
    }
  }

  lemma NoTurns(prev: nat, jis: Jis)
    ensures Turns(prev, [], jis) == Turn([], prev, true)
  {
  }

  lemma TurnsFrom(prev: nat, cps: seq<Ucs>, i: nat, jis: Jis)
    requires i < |cps|
    ensures var t := TakeTurn(prev, cps[i], jis);
            var rest := if t.ok then Turns(t.prev, cps[i + 1..], jis) else Turn([], t.prev, false);
            Turns(prev, cps[i..], jis) == Turn(t.us + rest.us, rest.prev, rest.ok)
  {
    hide TakeTurn;
    assert cps[i..][0] == cps[i] && cps[i..][1..] == cps[i + 1..];
  }

  lemma NoUnits(sh: Shadow)
    ensures AllValid([]) && EmitAll(sh, []) == Emission([], sh)
  {
  }

  lemma OneUnit(sh: Shadow, us: seq<Unit>)
    requires |us| <= 1 && AllValid(us)
    ensures EmitAll(sh, us) == if us == [] then Emission([], sh) else Emit(sh, us[0])
  {
    hide Emit;
    if us != [] {
      assert us[1..] == [];
      assert Emit(sh, us[0]).bytes + [] == Emit(sh, us[0]).bytes;
    }
  }

  lemma BufferedThen(sh: Shadow, u: Unit, us: seq<Unit>)
    requires AllValid([u] + us)
    ensures ValidUnit(u) && AllValid(us)
    ensures var e := Emit(sh, u);
            var f := EmitAll(e.sh, us);
            EmitAll(sh, [u] + us) == Emission(e.bytes + f.bytes, f.sh)
  {
    AllValidAppend([u], us);
    hide Emit, ValidUnit;
    assert ([u] + us)[0] == u && ([u] + us)[1..] == us;
  }

  // The bytes of units in three parts.
  lemma EmitParts(sh: Shadow, a: seq<Unit>, b: seq<Unit>, c: seq<Unit>, whole: seq<Unit>)
    requires whole == a + (b + c) && AllValid(whole)
    ensures AllValid(a + b)
    ensures AllValid(a) && AllValid(b) && AllValid(c)
    ensures var e := EmitAll(sh, a);
            var f := EmitAll(e.sh, b);
            && EmitAll(sh, a + b) == Emission(e.bytes + f.bytes, f.sh)
            && |EmitAll(sh, whole).bytes| == |e.bytes| + |f.bytes| + |EmitAll(f.sh, c).bytes|
  {
    hide EmitAll, AllValid;
    AppendAssoc(a, b, c);
    AllValidAppend(a + b, c);
    AllValidAppend(a, b);
    EmitAllAppend(sh, a, b);
    EmitAllAppend(sh, a + b, c);
  }

  // The output is full with a part of the units put out: with the bytes of the
  // first ones, or with these and a part of the next ones' bytes.
  lemma FullHere(w: seq<Byte>, sh: Shadow, a: seq<Unit>, b: seq<Unit>, whole: seq<Unit>, out: seq<Byte>)
    requires whole == a + b && AllValid(whole) && AllValid(a) && out == w + EmitAll(sh, a).bytes
    ensures var e := EmitAll(sh, whole);
            w <= out <= w + e.bytes && |w| + |e.bytes| >= |out|
  {
    hide EmitAll, AllValid;
    AllValidAppend(a, b);
    EmitAllAppend(sh, a, b);
    AppendAssoc(w, EmitAll(sh, a).bytes, EmitAll(EmitAll(sh, a).sh, b).bytes);
  }

  lemma PartHere(w: seq<Byte>, sh: Shadow, a: seq<Unit>, b: seq<Unit>, c: seq<Unit>, whole: seq<Unit>, out: seq<Byte>)
    requires whole == a + (b + c) && AllValid(whole) && AllValid(a) && AllValid(b)
    requires var e := EmitAll(sh, a);
             w + e.bytes <= out <= w + e.bytes + EmitAll(e.sh, b).bytes
    ensures w <= out <= w + EmitAll(sh, whole).bytes
  {
    hide EmitAll, AllValid;
    AppendAssoc(a, b, c);
    AllValidAppend(a + b, c);
    EmitAllAppend(sh, a, b);
    EmitAllAppend(sh, a + b, c);
    var e := EmitAll(sh, a);
    var x, y := EmitAll(e.sh, b).bytes, EmitAll(EmitAll(e.sh, b).sh, c).bytes;
    AppendAssoc(w + e.bytes, x, y);
    AppendAssoc(w, e.bytes, x + y);
    AppendAssoc(e.bytes, x, y);
  }

  lemma ThreeParts<T>(w: seq<T>, a: seq<T>, b: seq<T>, c: seq<T>)
    ensures w + a + b + c == w + (a + b + c)
  {
  }
}
