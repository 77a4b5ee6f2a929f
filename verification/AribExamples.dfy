// Texts that do not come back, and tables that the theorems of AribTextRoundTrip
// apply to.

module AribExamples {
  import opened Base
  import opened AribDecoder
  import opened AribCharConv
  import opened AribEncoder
  import opened AribSimulation
  import opened AribRoundTrip
  import opened AribText
  import opened AribTextRoundTrip

  // ----- A base at the end, and a blank -----

  // A text that is one base is encoded as nothing.
  lemma LastBaseIsLost(base: Ucs, jis: Jis)
    requires Classify(base, jis).Buffer?
    ensures OneCall([base], jis) == Chosen([], true) && EndsInBase([base], jis)
  {
    hide Classify;
    OneTurn(base, jis);
    assert Pieces([base], jis) == [Single(base)];
  }

  // The hiragana KA alone, in any tables that have it as a base: no bytes, and
  // from them no text.
  lemma KanaIsLost(jis: Jis)
    requires jis.to208(0x304b).Some? && MayCompose(jis.to213(0x304b))
    ensures OneCall([0x304b], jis) == Chosen([], true)
    ensures EmitAll(DEFAULT_SHADOW, []).bytes == [] && Inv(DEFAULT) && Decode(DEFAULT, [], jis).cps == []
  {
    assert Classify(0x304b, jis).Buffer?;
    LastBaseIsLost(0x304b, jis);
  }

  lemma OneTurn(ch: Ucs, jis: Jis)
    ensures Turns(0, [ch], jis) == TurnPlain(ch, jis)
  {
    hide TurnPlain;
    assert [ch][1..] == [];
    var t := TurnPlain(ch, jis);
    assert t.us + [] == t.us;
  }

  // A blank goes out as two NULs, which are read as nothing.
  lemma BlankIsLost(ch: Ucs, jis: Jis)
    requires IsBlank(ch, jis) && CodesInRange(ch, jis)
    ensures OneCall([ch], jis) == Chosen([BLANK], true)
    ensures EmitAll(DEFAULT_SHADOW, [BLANK]).bytes == [0, 0]
    ensures Run(DEFAULT, [0, 0]).ok && Run(DEFAULT, [0, 0]).out == []
  {
    BlankIff(ch, jis);
    OneTurn(ch, jis);
    assert [BLANK][1..] == [];
    Run2(DEFAULT, 0, 0);
    hide Classify, IsBlank, Run;
  }

  // ----- NUL -----

  // An extra symbol, NUL, the katakana of code 0x75 and a no-break space come
  // back as the symbol and NUL: behind NUL the encoder believes that G3 holds
  // katakana, and the decoder reads the last two in the set of extra symbols.
  lemma NulComesBack(code: nat, jis: Jis)
    requires IsCode(code)
    ensures var us := [ExtSym(code), Ascii(0), Kata(0x75), Ascii(0xa0)];
            var r := Run(DEFAULT, EmitAll(DEFAULT_SHADOW, us).bytes);
            && AllValid(us) && r.ok
            && r.out == [Sym(EXTRA_SYMBOLS, code / 256, code % 256), Sym(EXTRA_SYMBOLS, 0x75, 0x20)]
    ensures CharConv(EXTRA_SYMBOLS, 0x75, 0x20, jis) == [0]
  {
    hide Run, Step, Emit, EmitAll, InSync, AllValid, CharConv;
    var symbol, tail := Emit(DEFAULT_SHADOW, ExtSym(code)), [0, ESC, LS3R, 0xf5, 0xa0];
    DefaultInSync();
    FollowExtSym(DEFAULT_SHADOW, false, DEFAULT, code);
    var d := Run(DEFAULT, symbol.bytes).st;
    HoldsSymbols(code, d);
    RunAppend(DEFAULT, symbol.bytes, tail);
    AfterNul(d);
    FourUnits(code);
    EmptyCell(jis);
  }

  lemma EmptyCell(jis: Jis)
    ensures CharConv(EXTRA_SYMBOLS, 0x75, 0x20, jis) == [0]
  {
  }

  lemma HoldsSymbols(code: nat, d: State)
    requires IsCode(code) && InSync(Emit(DEFAULT_SHADOW, ExtSym(code)).sh, false, d)
    ensures d.mode == NORMAL && d.ss == 0 && d.g[3] == EXTRA_SYMBOLS
  {
  }

  lemma FourUnits(code: nat)
    requires IsCode(code)
    ensures var us := [ExtSym(code), Ascii(0), Kata(0x75), Ascii(0xa0)];
            && AllValid(us)
            && EmitAll(DEFAULT_SHADOW, us).bytes
            == Emit(DEFAULT_SHADOW, ExtSym(code)).bytes + [0, ESC, LS3R, 0xf5, 0xa0]
  {
    var us := [ExtSym(code), Ascii(0), Kata(0x75), Ascii(0xa0)];
    var symbol := Emit(DEFAULT_SHADOW, us[0]);
    assert us[1..] == [Ascii(0), Kata(0x75), Ascii(0xa0)];
    ThreeUnits(symbol.sh);
  }

  lemma ThreeUnits(sh: Shadow)
    ensures var us := [Ascii(0), Kata(0x75), Ascii(0xa0)];
            AllValid(us) && EmitAll(sh, us).bytes == [0, ESC, LS3R, 0xf5, 0xa0]
  {
    var us := [Ascii(0), Kata(0x75), Ascii(0xa0)];
    assert us[1..] == [Kata(0x75), Ascii(0xa0)] && us[1..][1..] == [Ascii(0xa0)] && us[1..][1..][1..] == [];
    assert EmitAll(sh.(g3 := KATAKANA_idx, gr := 1), [Ascii(0xa0)]).bytes == [0xa0];
    var sh1 := Shadow(0, 1, HIRAGANA_idx, KATAKANA_idx);
    assert Emit(DEFAULT_SHADOW, Kata(0x75)) == Emission([ESC, LS3R, 0xf5], sh1);
    assert EmitAll(sh1, us[1..][1..]).bytes == [0xa0];
    assert EmitAll(DEFAULT_SHADOW, us[1..]).bytes == [ESC, LS3R, 0xf5] + [0xa0];
  }

  lemma ReadCell(d: State)
    requires d.mode == NORMAL && d.ss == 0 && d.gr == 3 && d.g[3] == EXTRA_SYMBOLS
    ensures var first := Step(d, 0xf5);
            && first.ok && first.out == []
            && Step(first.st, 0xa0).ok && Step(first.st, 0xa0).out == [Sym(EXTRA_SYMBOLS, 0x75, 0x20)]
  {
    assert Step(d, 0xf5).st == d.(mode := MB_2ND, prev := 0xf5);
  }

  lemma AfterNul(d: State)
    requires d.mode == NORMAL && d.ss == 0 && d.g[3] == EXTRA_SYMBOLS
    ensures var r := Run(d, [0, ESC, LS3R, 0xf5, 0xa0]);
            r.ok && r.out == [Sym(EXTRA_SYMBOLS, 0x75, 0x20)]
  {
    var d3 := d.(gr := 3);
    assert Step(d, 0) == Quiet(d);
    RunLockRight(d, LS3R);
    Run1(d, 0);
    ReadCell(d3);
    Run2(d3, 0xf5, 0xa0);
    hide Run, Step;
    RunTwoQuietThen(d, [0], d, [ESC, LS3R], d3, [0xf5, 0xa0]);
    assert [0] + [ESC, LS3R] + [0xf5, 0xa0] == [0, ESC, LS3R, 0xf5, 0xa0];
  }

  // ----- Texts without plane 2 -----

  lemma {:induction false} NoPlane2NoClash(sh: Shadow, us: seq<Unit>)
    requires AllValid(us) && forall u <- us :: !(u.X0213? && u.plane2)
    ensures !Clash(false, Glyphs(sh, us))
    decreases |us|
  {
    hide Emit;
    if us != [] {
      NoPlane2NoClash(Emit(sh, us[0]).sh, us[1..]);
      assert Glyphs(sh, us)[1..] == Glyphs(Emit(sh, us[0]).sh, us[1..]);
      assert us[0] in us;
    }
  }

  lemma {:induction false} TurnsInPlane1(prev: nat, cps: seq<Ucs>, jis: Jis)
    requires forall ch <- cps :: !IsPlane2(jis.to213(ch))
    ensures forall u <- Turns(prev, cps, jis).us :: !(u.X0213? && u.plane2)
    decreases |cps|
  {
    if cps != [] {
      hide Composed, Seven, MayCompose, IsPlane2;
      assert cps[0] in cps;
      TurnInPlane1(prev, cps[0], jis);
      var t := TakeTurn(prev, cps[0], jis);
      if t.ok {
        assert forall ch <- cps[1..] :: ch in cps;
        TurnsInPlane1(t.prev, cps[1..], jis);
      }
    }
  }

  lemma TurnInPlane1(prev: nat, ch: Ucs, jis: Jis)
    requires !IsPlane2(jis.to213(ch))
    ensures forall u <- TakeTurn(prev, ch, jis).us :: !(u.X0213? && u.plane2)
  {
    hide Composed, Seven, MayCompose, IsPlane2;
  }

  // Without characters of plane 2 a text comes back if and only if it has no
  // lossy character and does not end in a base that waits.
  lemma Plane1RoundTripIff(cps: seq<Ucs>, jis: Jis)
    requires Consistent(cps, jis) && 0 !in cps && OneCall(cps, jis).ok
    requires forall ch <- cps :: !IsPlane2(jis.to213(ch))
    ensures Inv(DEFAULT) && AllValid(OneCall(cps, jis).us)
    ensures var d := Decode(DEFAULT, EmitAll(DEFAULT_SHADOW, OneCall(cps, jis).us).bytes, jis);
            d.ok && d.cps == cps <==> Lossless(cps, jis) && !EndsInBase(cps, jis)
  {
    hide Turns, Decode, EmitAll, Lossless, EndsInBase, Clash, Consistent, Inv, IsPlane2;
    TextRoundTripIff(cps, jis);
    TurnsInPlane1(0, cps, jis);
    NoPlane2NoClash(DEFAULT_SHADOW, OneCall(cps, jis).us);
  }

  // ----- Tables that fit every text -----

  // Tables with a JIS X 0208 kanji, a kana that composes, a plane-2 kanji, an
  // extra symbol and a blank.
  const SAMPLE: Jis := Jis(
    ch => if ch == 0x4e9c then Some((0x30, 0x21))
          else if ch == 0x304b then Some((0x24, 0x2b))
          else if ch == 0x2015 then Some((0x21, 0x3d))
          else None,
    ch => if ch == 0x4e9c then 0x3021 else if ch == 0x304b then 0x24ab else if ch == 0x2000b then 0xa121 else 0,
    (row, col) => if row == 0x130 && col == 0x21 then 0x4e9c
                  else if row == 0x124 && col == 0x2b then 0x304b
                  else if row == 0x124 && col == 0x77 then 1
                  else if row == 0x221 && col == 0x21 then 0x2000b
                  else 0,
    i => (0x304b, 0x309a),
    ch => if ch == 0x2600 then Some(0x7d60) else None)

  lemma SampleConsistent(cps: seq<Ucs>)
    ensures Consistent(cps, SAMPLE)
  {
    forall ch | ch in cps ensures Inverse(ch, SAMPLE) {
      SampleInverse(ch);
    }
    forall i | 0 <= i < |cps| - 1 ensures PairInverse(cps[i], cps[i + 1], SAMPLE) {
      SamplePairInverse(cps[i], cps[i + 1]);
    }
  }

  lemma SampleInverse(ch: Ucs)
    ensures Inverse(ch, SAMPLE)
  {
    SampleCodes();
    SampleKey();
    hide ExtsymKey, Seven, MayCompose, IsPlane2;
  }

  // The codes in the sample, taken apart.
  lemma SampleCodes()
    ensures Seven(0x3021) == 0x3021 && Seven(0x24ab) == 0x242b && Seven(0xa121) == 0x2121
    ensures !MayCompose(0) && !MayCompose(0x3021) && MayCompose(0x24ab) && !MayCompose(0xa121)
    ensures !IsPlane2(0x3021) && !IsPlane2(0x24ab) && IsPlane2(0xa121)
  {
    CodeParts(0, 0, 0, 0, 0);
    CodeParts(0, 0x30, 0, 0x21, 0x3021);
    CodeParts(0, 0x24, 1, 0x2b, 0x24ab);
    CodeParts(1, 0x21, 0, 0x21, 0xa121);
  }

  lemma CodeParts(plane2: nat, row: nat, base: nat, col: nat, jch: nat)
    requires plane2 <= 1 && row < 128 && base <= 1 && col < 128
    requires jch == plane2 * 0x8000 + row * 256 + base * 128 + col
    ensures Seven(jch) == row * 256 + col && (MayCompose(jch) <==> base == 1) && (IsPlane2(jch) <==> plane2 == 1)
  {
    assert jch / 256 == plane2 * 128 + row && jch / 128 == plane2 * 256 + row * 2 + base;
    assert jch % 128 == col;
  }

  lemma SampleKey()
    ensures ExtsymKey(0x7d, 0x40) == 0x2600
  {
  }

  lemma OnlyEntry(k: nat)
    requires k < COMP_TABLE_LEN && CompTable(k).0 == 0x242b
    ensures k == 11
  {
  }

  lemma SamplePairInverse(base: Ucs, mark: Ucs)
    ensures PairInverse(base, mark, SAMPLE)
  {
    SampleCodes();
    hide Seven, MayCompose, Composed;
    if base == 0x304b { OnlyPair(mark); }
  }

  // The one pair whose base is the sample's kana.
  lemma OnlyPair(mark: Ucs)
    ensures Composed(0x24ab, mark).Some? ==> mark == 0x309a && Composed(0x24ab, mark) == Some(0x2477)
  {
    SampleCodes();
    EntryEleven();
    hide Seven, CompTable;
    match FindBase(CompStart(mark), CompLen(mark), 0x242b)
    case Some(k) => OnlyEntry(k);
    case None =>
  }

  lemma EntryEleven()
    ensures CompTable(11) == (0x242b, 0x2477)
  {
  }

  // ----- A clash of planes -----

  lemma SampleKanji()
    ensures Classify(0x2000b, SAMPLE) == Direct(X0213(0x2121, true)) && !IsLossy(0x2000b, SAMPLE)
  {
    assert Seven(0xa121) == 0x2121;
  }

  lemma SampleKana()
    ensures Classify(0x304b, SAMPLE) == Buffer(0x242b) && Composed(0x242b, 0x309a) == Some(0x2477)
  {
    assert Seven(0x24ab) == 0x242b && Seven(0x242b) == 0x242b;
    EntryEleven();
    hide CompTable;
    assert FindBase(11, 14, 0x242b) == Some(11);
  }

  lemma SamplePieces(cps: seq<Ucs>)
    requires cps == [0x2000b, 0x304b, 0x309a]
    ensures Pieces(cps, SAMPLE) == [Single(0x2000b), Pair(0x304b, 0x309a, 0x2477)]
  {
    SampleKanji();
    SampleKana();
    hide Classify, Composed, IsLossy, SAMPLE;
    assert cps[1..] == [0x304b, 0x309a] && cps[1..][2..] == [];
    assert Pieces(cps[1..], SAMPLE) == [Pair(0x304b, 0x309a, 0x2477)];
  }

  lemma SampleTurns(cps: seq<Ucs>)
    requires cps == [0x2000b, 0x304b, 0x309a]
    ensures OneCall(cps, SAMPLE) == Chosen([X0213(0x2121, true), X0213(0x2477, false)], true)
  {
    SampleKanji();
    SampleKana();
    hide Classify, Composed, IsLossy, SAMPLE;
    assert cps[1..] == [0x304b, 0x309a] && cps[1..][1..] == [0x309a] && cps[1..][1..][1..] == [];
    assert Turns(0, [], SAMPLE) == Turn([], 0, true);
    assert Turns(0x242b, cps[1..][1..], SAMPLE) == Turn([X0213(0x2477, false)], 0, true);
    assert Turns(0, cps[1..], SAMPLE) == Turn([X0213(0x2477, false)], 0, true);
  }

  lemma PlanesClash(code: nat, code': nat)
    requires IsCode(code) && IsCode(code')
    ensures var us := [X0213(code, true), X0213(code', false)];
            AllValid(us) && Clash(false, Glyphs(DEFAULT_SHADOW, us))
  {
    var us := [X0213(code, true), X0213(code', false)];
    var sh := Emit(DEFAULT_SHADOW, us[0]).sh;
    hide Emit;
    assert us[1..] == [us[1]] && us[1..][1..] == [];
    var g, g' := UnitGlyph(DEFAULT_SHADOW, us[0]), UnitGlyph(sh, us[1]);
    assert Glyphs(sh, us[1..]) == [g'];
    assert Glyphs(DEFAULT_SHADOW, us) == [g] + [g'];
    ClashCons(true, g', []);
    ClashCons(false, g, [g']);
    assert [g'] + [] == [g'];
  }

  lemma SampleLossless(cps: seq<Ucs>)
    requires cps == [0x2000b, 0x304b, 0x309a]
    ensures Lossless(cps, SAMPLE) && !EndsInBase(cps, SAMPLE)
  {
    SampleKanji();
    SamplePieces(cps);
    hide Pieces, IsLossy, SAMPLE, Classify;
    var ps := Pieces(cps, SAMPLE);
    assert forall p <- ps :: p == ps[0] || p == ps[1];
  }

  // A kanji of plane 2 and then a composed kana, which is in plane 1: nothing
  // is lossy, nothing waits at the end, and yet the text does not come back.
  lemma PlaneClashText()
    ensures var cps := [0x2000b, 0x304b, 0x309a];
            && Consistent(cps, SAMPLE) && OneCall(cps, SAMPLE).ok && Lossless(cps, SAMPLE) && !EndsInBase(cps, SAMPLE)
            && Inv(DEFAULT) && AllValid(OneCall(cps, SAMPLE).us)
            && var d := Decode(DEFAULT, EmitAll(DEFAULT_SHADOW, OneCall(cps, SAMPLE).us).bytes, SAMPLE);
               !(d.ok && d.cps == cps)
  {
    hide *;
    var cps := [0x2000b, 0x304b, 0x309a];
    SampleConsistent(cps);
    SampleLossless(cps);
    SampleTurns(cps);
    SampleCode(0x2121);
    SampleCode(0x2477);
    PlanesClash(0x2121, 0x2477);
    TextRoundTripIff(cps, SAMPLE);
  }

  lemma SampleCode(code: nat)
    requires code == 0x2121 || code == 0x2477
    ensures IsCode(code)
  {
  }
}
