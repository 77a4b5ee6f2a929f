// Decoding undoes encoding, and exactly when, for units and glyphs, which needs
// no tables.

module AribRoundTrip {
  import opened Base
  import opened AribDecoder
  import opened AribEncoder
  import opened AribSimulation

  // ----- Units and glyphs -----

  // The glyphs the decoder reads from the bytes of units without NUL.
  function ReadAll(sh: Shadow, stale: bool, us: seq<Unit>): seq<Glyph>
    requires AllValid(us)
    decreases |us|
  {
    if us == [] then []
    else Read(sh, stale, us[0])
         + ReadAll(Emit(sh, us[0]).sh, StaleAfter(stale, UnitGlyph(sh, us[0])), us[1..])
  }

  function StaleAfterAll(stale: bool, gs: seq<Glyph>): bool
    decreases |gs|
  {
    if gs == [] then stale else StaleAfterAll(StaleAfter(stale, gs[0]), gs[1..])
  }

  // A plane-1 character comes while G2 still holds plane 2.
  predicate Clash(stale: bool, gs: seq<Glyph>)
    decreases |gs|
  {
    gs != [] && ((stale && gs[0].Sym? && gs[0].gset == JISX0213_1) || Clash(StaleAfter(stale, gs[0]), gs[1..]))
  }

  predicate IsSet(g: Glyph, gset: Byte) { g.Sym? && g.gset == gset }

  // A glyph that makes the encoder and the decoder agree on G2 again.
  predicate Refreshes(g: Glyph) { IsSet(g, HIRAGANA) || g == Through(LF) }

  // A plane-1 character has a plane-2 one, or the start if stale, before it
  // with no hiragana and no line feed in between.
  ghost predicate ClashAt(stale: bool, gs: seq<Glyph>, i: int, j: int) {
    && -1 <= i < j < |gs|
    && (if i == -1 then stale else IsSet(gs[i], JISX0213_2))
    && IsSet(gs[j], JISX0213_1)
    && forall k :: i < k < j ==> !Refreshes(gs[k])
  }

  // What Clash means, by positions.
  lemma {:induction false} ClashIsClashAt(stale: bool, gs: seq<Glyph>)
    ensures Clash(stale, gs) <==> exists i, j :: ClashAt(stale, gs, i, j)
    decreases |gs|
  {
    if gs != [] {
      var stale' := StaleAfter(stale, gs[0]);
      ClashIsClashAt(stale', gs[1..]);
      if stale && IsSet(gs[0], JISX0213_1) {
        assert ClashAt(stale, gs, -1, 0);
      } else if Clash(stale', gs[1..]) {
        var i, j :| ClashAt(stale', gs[1..], i, j);
        if i == -1 && !IsSet(gs[0], JISX0213_2) {
          assert stale && !Refreshes(gs[0]);
          assert forall k :: 0 < k < j + 1 ==> gs[k] == gs[1..][k - 1];
          assert ClashAt(stale, gs, -1, j + 1);
        } else {
          assert forall k :: i + 1 < k < j + 1 ==> gs[k] == gs[1..][k - 1];
          assert ClashAt(stale, gs, i + 1, j + 1);
        }
      }
      if i, j :| ClashAt(stale, gs, i, j) {
        if j > 0 {
          assert forall k :: 0 <= k < |gs| - 1 ==> gs[1..][k] == gs[k + 1];
          assert ClashAt(stale', gs[1..], if i == -1 then -1 else i - 1, j - 1);
        }
      }
    }
  }

  // Simulation over whole runs: on the bytes of any units without NUL the
  // decoder never stops, and ends in the state the encoder's shadow describes.
  lemma {:induction false} SimulateAll(sh: Shadow, stale: bool, d: State, us: seq<Unit>)
    requires InSync(sh, stale, d)
    requires AllValid(us)
    requires Ascii(0) !in us
    ensures var e := EmitAll(sh, us);
            var r := Run(d, e.bytes);
            && r.ok
            && r.out == ReadAll(sh, stale, us)
            && InSync(e.sh, StaleAfterAll(stale, Glyphs(sh, us)), r.st)
    decreases |us|
  {
    hide Run, Emit, InSync, UnitGlyph, StaleAfter, Read;
    if us == [] {
      RunNothing(d);
    } else {
      var e := Emit(sh, us[0]);
      Simulate(sh, stale, d, us[0]);
      var r := Run(d, e.bytes);
      var stale' := StaleAfter(stale, UnitGlyph(sh, us[0]));
      SimulateAll(e.sh, stale', r.st, us[1..]);
      RunAppend(d, e.bytes, EmitAll(e.sh, us[1..]).bytes);
    }
  }

  lemma {:induction false} ReadLength(sh: Shadow, stale: bool, us: seq<Unit>)
    requires AllValid(us)
    ensures |Glyphs(sh, us)| == |us|
    ensures |ReadAll(sh, stale, us)| <= |us|
    ensures |ReadAll(sh, stale, us)| == |us| <==> BLANK !in us
    decreases |us|
  {
    hide Emit, StaleAfter, UnitGlyph, ReadGlyph;
    if us != [] {
      ReadLength(Emit(sh, us[0]).sh, StaleAfter(stale, UnitGlyph(sh, us[0])), us[1..]);
      assert BLANK in us <==> BLANK == us[0] || BLANK in us[1..];
    }
  }

  // Reading goes right exactly when there is no blank and no clash occurs.
  lemma {:induction false} ReadRightIff(sh: Shadow, stale: bool, us: seq<Unit>)
    requires AllValid(us)
    ensures ReadAll(sh, stale, us) == Glyphs(sh, us) <==> BLANK !in us && !Clash(stale, Glyphs(sh, us))
    decreases |us|
  {
    hide Emit, StaleAfter;
    ReadLength(sh, stale, us);
    if us != [] && BLANK !in us {
      var e := Emit(sh, us[0]);
      var stale' := StaleAfter(stale, UnitGlyph(sh, us[0]));
      ReadRightIff(e.sh, stale', us[1..]);
      var g, gs := UnitGlyph(sh, us[0]), Glyphs(sh, us);
      assert gs[1..] == Glyphs(e.sh, us[1..]);
      assert ReadAll(sh, stale, us)[1..] == ReadAll(e.sh, stale', us[1..]);
      assert ReadAll(sh, stale, us)[0] == ReadGlyph(sh, stale, us[0]);
      assert ReadGlyph(sh, stale, us[0]) == g <==> !(stale && IsSet(g, JISX0213_1));
    }
  }

  lemma {:induction false} NulGlyph(sh: Shadow, us: seq<Unit>)
    requires AllValid(us)
    requires Ascii(0) in us
    ensures Through(0) in Glyphs(sh, us)
    decreases |us|
  {
    if us[0] == Ascii(0) {
      assert Glyphs(sh, us)[0] == Through(0);
    } else {
      hide Emit, UnitGlyph;
      NulGlyph(Emit(sh, us[0]).sh, us[1..]);
      assert Glyphs(sh, us)[1..] == Glyphs(Emit(sh, us[0]).sh, us[1..]);
    }
  }

  // Decoding the emitted bytes gives back the glyphs that were chosen, if and
  // only if there is no NUL, no blank and no plane-1 character read in plane 2.
  lemma RoundTripIff(us: seq<Unit>)
    requires AllValid(us)
    ensures var r := Run(DEFAULT, EmitAll(DEFAULT_SHADOW, us).bytes);
            var gs := Glyphs(DEFAULT_SHADOW, us);
            r.ok && r.out == gs <==> Ascii(0) !in us && BLANK !in us && !Clash(false, gs)
  {
    hide Run, Emit;
    if Ascii(0) in us {
      NulGlyph(DEFAULT_SHADOW, us);
      RunInv(DEFAULT, EmitAll(DEFAULT_SHADOW, us).bytes);
    } else {
      SimulateAll(DEFAULT_SHADOW, false, DEFAULT, us);
      ReadRightIff(DEFAULT_SHADOW, false, us);
    }
  }

  // NUL resets the encoder but not the decoder: they agree afterwards exactly
  // when there was nothing to reset.
  lemma NulKeepsSyncIff(sh: Shadow, stale: bool, d: State)
    requires InSync(sh, stale, d)
    ensures Emit(sh, Ascii(0)) == Emission([0], DEFAULT_SHADOW)
    ensures InSync(DEFAULT_SHADOW, false, Run(d, [0]).st) <==> sh == DEFAULT_SHADOW
  {
    Run1(d, 0);
  }

  // Two characters of JIS X 0213, one of plane 2 and then one of plane 1,
  // already come back wrong, whatever their codes.
  lemma PlaneClashExample(code: nat)
    requires IsCode(code)
    ensures var us := [X0213(code, true), X0213(code, false)];
            var r := Run(DEFAULT, EmitAll(DEFAULT_SHADOW, us).bytes);
            r.ok && r.out == [Sym(JISX0213_2, code / 256, code % 256), Sym(JISX0213_2, code / 256, code % 256)]
  {
    hide Run;
    var us := [X0213(code, true), X0213(code, false)];
    var e := Emit(DEFAULT_SHADOW, us[0]);
    var e2 := Emit(e.sh, us[1]);
    FollowX0213(DEFAULT_SHADOW, false, DEFAULT, code, true);
    FollowX0213(e.sh, true, Run(DEFAULT, e.bytes).st, code, false);
    RunAppend(DEFAULT, e.bytes, e2.bytes);
    hide Emit;
    assert us[1..] == [us[1]] && us[1..][1..] == [];
    assert EmitAll(e.sh, us[1..]).bytes == e2.bytes + [] == e2.bytes;
  }
}
