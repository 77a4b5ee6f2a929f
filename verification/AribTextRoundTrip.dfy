// Decoding undoes encoding for texts, and exactly when: with JIS tables that are
// inverse to one another on the text's own characters, a text without NUL comes
// back if and only if it has no lossy character, does not end in a base that
// waits for a combining character, and no plane-1 character is read in plane 2.

module AribTextRoundTrip {
  import opened Base
  import opened AribDecoder
  import opened AribCharConv
  import opened AribEncoder
  import opened AribSimulation
  import opened AribRoundTrip
  import opened AribText

  // What is asked of the tables: that they are inverse to one another at the
  // characters of the text and at its neighbours that combine.
  predicate Consistent(cps: seq<Ucs>, jis: Jis) {
    && (forall ch <- cps :: Inverse(ch, jis))
    && (forall i | 0 <= i < |cps| - 1 :: PairInverse(cps[i], cps[i + 1], jis))
  }

  lemma ConsistentFrom(cps: seq<Ucs>, n: nat, jis: Jis)
    requires Consistent(cps, jis) && n <= |cps|
    ensures Consistent(cps[n..], jis)
  {
    hide Inverse, PairInverse;
    var rest := cps[n..];
    assert forall ch <- rest :: ch in cps;
    forall i | 0 <= i < |rest| - 1 ensures PairInverse(rest[i], rest[i + 1], jis) {
      assert PairInverse(cps[n + i], cps[n + i + 1], jis);
    }
  }

  lemma ConsistentInRange(cps: seq<Ucs>, jis: Jis)
    requires Consistent(cps, jis)
    ensures InRange(cps, jis)
  {
    hide CodesInRange, PairInverse;
    forall ch | ch in cps ensures CodesInRange(ch, jis) {
      assert Inverse(ch, jis);
    }
  }

  predicate ProperPieces(ps: seq<Piece>, jis: Jis) {
    forall p <- ps :: ProperPiece(p, jis) && PieceInverse(p, jis)
  }

  lemma PiecesCons(p: Piece, rest: seq<Piece>, jis: Jis)
    ensures ProperPieces([p] + rest, jis) <==> ProperPiece(p, jis) && PieceInverse(p, jis) && ProperPieces(rest, jis)
  {
    hide ProperPiece, PieceInverse;
    var ps := [p] + rest;
    assert ps[0] == p;
    assert forall q :: q in ps <==> q == p || q in rest;
  }

  function UnitsOf(ps: seq<Piece>, jis: Jis): seq<Unit> {
    if ps == [] then [] else PieceUnits(ps[0], jis).us + UnitsOf(ps[1..], jis)
  }

  // A text without NUL that encodes without error is made of proper pieces.
  lemma {:induction false} PiecesProper(cps: seq<Ucs>, jis: Jis)
    requires Consistent(cps, jis) && 0 !in cps && TwoPass(Pieces(cps, jis), jis).ok
    ensures ProperPieces(Pieces(cps, jis), jis)
    ensures TwoPass(Pieces(cps, jis), jis).us == UnitsOf(Pieces(cps, jis), jis)
    decreases |cps|
  {
    if cps != [] {
      hide Classify, Composed, Inverse, PairInverse, Consistent;
      var ps := Pieces(cps, jis);
      var n := |PieceText(ps[0])|;
      assert ps[1..] == Pieces(cps[n..], jis);
      ConsistentFrom(cps, n, jis);
      HeadInverse(cps, jis);
      PiecesProper(cps[n..], jis);
      PiecesCons(ps[0], ps[1..], jis);
      assert [ps[0]] + ps[1..] == ps;
    }
  }

  lemma HeadInverse(cps: seq<Ucs>, jis: Jis)
    requires Consistent(cps, jis) && cps != []
    ensures PieceInverse(Pieces(cps, jis)[0], jis)
  {
    hide Inverse, PairInverse, Classify, Composed;
    assert cps[0] in cps;
    if |cps| >= 2 { assert PairInverse(cps[0], cps[0 + 1], jis); }
  }

  // ----- What is read for the head of the pieces -----

  // What is read for a piece is its text, if it is neither lossy nor misread,
  // and otherwise shows at once that it is not.
  lemma HeadReads(sh: Shadow, stale: bool, p: Piece, jis: Jis)
    requires ProperPiece(p, jis) && PieceInverse(p, jis) && !VanishingPiece(p, jis)
    ensures var u := PieceUnit(p, jis);
            && PieceUnits(p, jis) == Chosen([u], true)
            && ValidUnit(u) && u != Ascii(0) && u != BLANK
            && ProperGlyph(ReadGlyph(sh, stale, u))
            && var cps := GlyphConv(ReadGlyph(sh, stale, u), jis);
               if LossyPiece(p, jis) || (stale && IsSet(UnitGlyph(sh, u), JISX0213_1))
               then TellsApart(cps, PieceText(p)) else cps == PieceText(p)
  {
    hide ProperPiece, PieceInverse, LossyPiece, VanishingPiece, PieceUnit, PieceUnits, CharConv, ConvX0213;
    PieceReads(sh, p, jis);
    var u := PieceUnit(p, jis);
    if Misread(stale, u) {
      JisConv(JISX0213_2, u.code, jis);
    }
  }

  // A piece that vanishes has no unit or a blank.
  lemma VanishingUnits(p: Piece, jis: Jis)
    requires ProperPiece(p, jis) && PieceInverse(p, jis) && VanishingPiece(p, jis)
    ensures |PieceText(p)| == 1 && LossyPiece(p, jis)
    ensures PieceUnits(p, jis).us == [] || PieceUnits(p, jis).us == [BLANK]
  {
    BlankIff(p.ch, jis);
    hide Classify, IsBlank;
  }

  // Reading the units of a piece and then others.
  lemma ReadCons(sh: Shadow, stale: bool, u: Unit, us: seq<Unit>)
    requires ValidUnit(u) && AllValid(us)
    ensures AllValid([u] + us)
    ensures var sh', stale' := Emit(sh, u).sh, StaleAfter(stale, UnitGlyph(sh, u));
            && ReadAll(sh, stale, [u] + us) == Read(sh, stale, u) + ReadAll(sh', stale', us)
            && Glyphs(sh, [u] + us) == [UnitGlyph(sh, u)] + Glyphs(sh', us)
  {
    hide Emit, StaleAfter, UnitGlyph, Read, ValidUnit;
    var all := [u] + us;
    assert all[0] == u && all[1..] == us;
    assert forall v :: v in all <==> v == u || v in us;
  }

  // ----- Lengths -----

  predicate SafeUnits(us: seq<Unit>) { AllValid(us) && Ascii(0) !in us }

  lemma SafeCons(u: Unit, us: seq<Unit>)
    requires ValidUnit(u) && u != Ascii(0) && SafeUnits(us)
    ensures SafeUnits([u] + us)
  {
    hide ValidUnit;
    assert forall v :: v in [u] + us <==> v == u || v in us;
  }

  predicate AllProper(gs: seq<Glyph>) { forall g <- gs :: ProperGlyph(g) }

  lemma ProperCons(g: Glyph, gs: seq<Glyph>)
    requires ProperGlyph(g) && AllProper(gs)
    ensures AllProper([g] + gs)
  {
    hide ProperGlyph;
    assert forall h :: h in [g] + gs <==> h == g || h in gs;
  }

  lemma RenderCons(g: Glyph, gs: seq<Glyph>, jis: Jis)
    requires ProperGlyph(g) && AllProper(gs)
    ensures AllProper([g] + gs)
    ensures var cps, rest := GlyphConv(g, jis), Render(gs, jis);
            Render([g] + gs, jis) == if cps == [] then Text([], false) else Text(cps + rest.cps, rest.ok)
  {
    ProperCons(g, gs);
    hide GlyphConv, ProperGlyph;
    assert ([g] + gs)[0] == g && ([g] + gs)[1..] == gs;
  }

  // Never more code points are read than were written, and fewer if a piece
  // vanishes.
  lemma {:induction false} ReadTextLength(sh: Shadow, stale: bool, ps: seq<Piece>, jis: Jis)
    requires ProperPieces(ps, jis)
    ensures SafeUnits(UnitsOf(ps, jis))
    ensures var gs := ReadAll(sh, stale, UnitsOf(ps, jis));
            && AllProper(gs)
            && |Render(gs, jis).cps| <= |Joined(ps)|
            && ((exists p <- ps :: VanishingPiece(p, jis)) ==> |Render(gs, jis).cps| < |Joined(ps)|)
    decreases |ps|
  {
    hide *;
    if ps == [] {
      NothingRead(sh, stale, jis);
    } else {
      var p, rest := ps[0], ps[1..];
      assert [p] + rest == ps;
      PiecesCons(p, rest, jis);
      HeadOf(p, rest, jis);
      var us := UnitsOf(rest, jis);
      assert forall q :: q in ps <==> q == p || q in rest;
      if VanishingPiece(p, jis) {
        VanishingUnits(p, jis);
        if PieceUnits(p, jis).us == [] {
          ReadTextLength(sh, stale, rest, jis);
          assert [] + us == us;
        } else {
          BlankReads(sh, stale);
          ReadTextLength(Emit(sh, BLANK).sh, StaleAfter(stale, UnitGlyph(sh, BLANK)), rest, jis);
          SafeCons(BLANK, us);
          SafeParts(us);
          ReadCons(sh, stale, BLANK, us);
          var gs := ReadAll(Emit(sh, BLANK).sh, StaleAfter(stale, UnitGlyph(sh, BLANK)), us);
          assert [] + gs == gs;
        }
      } else {
        HeadReads(sh, stale, p, jis);
        var u := PieceUnit(p, jis);
        var sh', stale' := Emit(sh, u).sh, StaleAfter(stale, UnitGlyph(sh, u));
        ReadTextLength(sh', stale', rest, jis);
        SafeCons(u, us);
        SafeParts(us);
        ReadCons(sh, stale, u, us);
        ReadOne(sh, stale, u);
        RenderCons(ReadGlyph(sh, stale, u), ReadAll(sh', stale', us), jis);
        ShortHead(GlyphConv(ReadGlyph(sh, stale, u), jis), p);
      }
    }
  }

  lemma NothingRead(sh: Shadow, stale: bool, jis: Jis)
    ensures UnitsOf([], jis) == [] && SafeUnits([]) && AllProper([]) && Joined([]) == []
    ensures AllValid([]) && ReadAll(sh, stale, []) == [] && Glyphs(sh, []) == []
    ensures Render([], jis) == Text([], true) && !Clash(stale, [])
  {
  }

  lemma HeadOf(p: Piece, rest: seq<Piece>, jis: Jis)
    ensures UnitsOf([p] + rest, jis) == PieceUnits(p, jis).us + UnitsOf(rest, jis)
    ensures Joined([p] + rest) == PieceText(p) + Joined(rest)
  {
    hide PieceUnits, PieceText;
    assert ([p] + rest)[1..] == rest;
  }

  lemma BlankReads(sh: Shadow, stale: bool)
    ensures ValidUnit(BLANK) && BLANK != Ascii(0) && Read(sh, stale, BLANK) == []
  {
  }

  lemma SafeParts(us: seq<Unit>)
    requires SafeUnits(us)
    ensures AllValid(us) && Ascii(0) !in us
  {
  }

  lemma ReadOne(sh: Shadow, stale: bool, u: Unit)
    requires ValidUnit(u) && u != BLANK
    ensures Read(sh, stale, u) == [ReadGlyph(sh, stale, u)]
  {
    hide ReadGlyph;
  }

  lemma ShortHead(cps: seq<Ucs>, p: Piece)
    ensures PieceText(p) != []
    ensures cps == PieceText(p) || TellsApart(cps, PieceText(p)) ==> |cps| <= |PieceText(p)|
  {
  }

  // ----- The text read is the text written -----

  lemma ClashCons(stale: bool, g: Glyph, gs: seq<Glyph>)
    ensures Clash(stale, [g] + gs) <==> (stale && IsSet(g, JISX0213_1)) || Clash(StaleAfter(stale, g), gs)
  {
    hide StaleAfter;
    assert ([g] + gs)[1..] == gs;
  }

  // A first part that is right can be cancelled; one that differs at its start decides.
  lemma HeadDecides(cps: seq<Ucs>, text: seq<Ucs>, a: seq<Ucs>, b: seq<Ucs>)
    ensures cps == text ==> (cps + a == text + b <==> a == b)
    ensures cps != [] && TellsApart(cps, text) ==> cps + a != text + b
  {
    if cps == text && cps + a == text + b {
      assert a == (cps + a)[|cps|..] && b == (text + b)[|text|..];
    }
    if cps != [] && TellsApart(cps, text) {
      assert (cps + a)[0] == cps[0] && (text + b)[0] == text[0];
    }
  }

  lemma RenderDecides(g: Glyph, gs: seq<Glyph>, text: seq<Ucs>, rest: seq<Ucs>, jis: Jis)
    requires ProperGlyph(g) && AllProper(gs) && AllProper([g] + gs) && text != []
    ensures GlyphConv(g, jis) == text ==>
              (Render([g] + gs, jis) == Text(text + rest, true) <==> Render(gs, jis) == Text(rest, true))
    ensures TellsApart(GlyphConv(g, jis), text) ==> Render([g] + gs, jis) != Text(text + rest, true)
  {
    RenderCons(g, gs, jis);
    hide GlyphConv, ProperGlyph, Render;
    HeadDecides(GlyphConv(g, jis), text, Render(gs, jis).cps, rest);
  }

  // If nothing vanishes, rendering what is read from the units of the pieces
  // gives their text exactly when no piece is lossy and no clash occurs.
  lemma {:induction false} ReadTextIff(sh: Shadow, stale: bool, ps: seq<Piece>, jis: Jis)
    requires ProperPieces(ps, jis) && forall p <- ps :: !VanishingPiece(p, jis)
    ensures SafeUnits(UnitsOf(ps, jis))
    ensures var us := UnitsOf(ps, jis);
            var gs := ReadAll(sh, stale, us);
            && AllProper(gs)
            && (Render(gs, jis) == Text(Joined(ps), true)
                <==> (forall p <- ps :: !LossyPiece(p, jis)) && !Clash(stale, Glyphs(sh, us)))
    decreases |ps|
  {
    hide *;
    if ps == [] {
      NothingRead(sh, stale, jis);
    } else {
      var p, rest := ps[0], ps[1..];
      assert [p] + rest == ps;
      PiecesCons(p, rest, jis);
      HeadOf(p, rest, jis);
      assert forall q :: q in ps <==> q == p || q in rest;
      HeadReads(sh, stale, p, jis);
      var u, us := PieceUnit(p, jis), UnitsOf(rest, jis);
      var g := UnitGlyph(sh, u);
      var sh', stale' := Emit(sh, u).sh, StaleAfter(stale, g);
      ReadTextIff(sh', stale', rest, jis);
      SafeCons(u, us);
      SafeParts(us);
      ReadCons(sh, stale, u, us);
      ReadOne(sh, stale, u);
      ProperCons(ReadGlyph(sh, stale, u), ReadAll(sh', stale', us));
      ClashCons(stale, g, Glyphs(sh', us));
      ShortHead([], p);
      RenderDecides(ReadGlyph(sh, stale, u), ReadAll(sh', stale', us), PieceText(p), Joined(rest), jis);
    }
  }

  // ----- Texts -----

  // No character outside a pair is lossy.
  predicate Lossless(cps: seq<Ucs>, jis: Jis) {
    forall p <- Pieces(cps, jis) :: !LossyPiece(p, jis)
  }

  // A base is never lossy, and a combining character only if it is a blank.
  lemma PairNotLossy(base: Ucs, mark: Ucs, jis: Jis)
    requires PairCode(base, mark, jis).Some?
    ensures !IsLossy(base, jis) && (IsLossy(mark, jis) ==> IsBlank(mark, jis))
  {
    assert !MayCompose(0);
    hide FindBase, MayCompose;
  }

  // So the position of a character does not matter.
  lemma {:induction false} LosslessIff(cps: seq<Ucs>, jis: Jis)
    requires forall ch <- cps :: CompLen(ch) > 0 ==> !IsBlank(ch, jis)
    ensures Lossless(cps, jis) <==> forall ch <- cps :: !IsLossy(ch, jis)
    decreases |cps|
  {
    hide Classify, Composed, IsLossy, IsBlank, CompLen;
    if cps != [] {
      var ps := Pieces(cps, jis);
      var n := |PieceText(ps[0])|;
      assert ps[1..] == Pieces(cps[n..], jis);
      if n == 2 {
        PairNotLossy(cps[0], cps[1], jis);
        PairLength(cps[0], cps[1], jis);
        assert cps[1] in cps;
      }
      assert forall ch <- cps[n..] :: ch in cps;
      LosslessIff(cps[n..], jis);
      assert LossyPiece(ps[0], jis) <==> n == 1 && IsLossy(cps[0], jis);
      assert forall p :: p in ps <==> p == ps[0] || p in ps[1..];
      assert cps == PieceText(ps[0]) + cps[n..];
      assert forall ch :: ch in cps <==> ch in PieceText(ps[0]) || ch in cps[n..];
    }
  }

  lemma PairLength(base: Ucs, mark: Ucs, jis: Jis)
    requires PairCode(base, mark, jis).Some?
    ensures CompLen(mark) > 0
  {
  }

  // The pieces but the last one.
  lemma {:induction false} LastPiece(ps: seq<Piece>, jis: Jis)
    requires ps != [] && ProperPieces(ps, jis)
    ensures var before, last := ps[..|ps| - 1], ps[|ps| - 1];
            && ProperPieces(before, jis)
            && UnitsOf(ps, jis) == UnitsOf(before, jis) + PieceUnits(last, jis).us
            && Joined(ps) == Joined(before) + PieceText(last)
    decreases |ps|
  {
    hide ProperPiece, PieceInverse, PieceUnits, PieceText;
    var before, last := ps[..|ps| - 1], ps[|ps| - 1];
    assert forall p <- before :: p in ps;
    if |ps| == 1 {
      assert ps == [last] && ps[1..] == [] && before == [];
    } else {
      PiecesCons(ps[0], ps[1..], jis);
      assert [ps[0]] + ps[1..] == ps;
      LastPiece(ps[1..], jis);
      assert ps[1..][..|ps| - 2] == before[1..];
    }
  }

  // What is decoded from the bytes of units, which the decoder follows.
  lemma DecodeUnits(us: seq<Unit>, jis: Jis)
    requires SafeUnits(us) && AllProper(ReadAll(DEFAULT_SHADOW, false, us))
    ensures Inv(DEFAULT)
    ensures var d := Decode(DEFAULT, EmitAll(DEFAULT_SHADOW, us).bytes, jis);
            var t := Render(ReadAll(DEFAULT_SHADOW, false, us), jis);
            d.ok == t.ok && d.cps == t.cps
  {
    DefaultInSync();
    hide ReadAll, Render, EmitAll, Decode, Run, InSync, ProperGlyph, Inv;
    SimulateAll(DEFAULT_SHADOW, false, DEFAULT, us);
    DecodeRendersRun(DEFAULT, EmitAll(DEFAULT_SHADOW, us).bytes, jis);
  }

  lemma DefaultInSync()
    ensures InSync(DEFAULT_SHADOW, false, DEFAULT) && Inv(DEFAULT)
  {
  }

  // The units of one call are those of the pieces, but for a base at the end.
  lemma OneCallUnits(cps: seq<Ucs>, jis: Jis)
    requires Consistent(cps, jis) && 0 !in cps && OneCall(cps, jis).ok
    ensures var ps := Pieces(cps, jis);
            && ProperPieces(ps, jis) && Joined(ps) == cps
            && if EndsInBase(cps, jis)
               then ps != [] && OneCall(cps, jis).us == UnitsOf(ps[..|ps| - 1], jis)
               else OneCall(cps, jis).us == UnitsOf(ps, jis)
  {
    hide Turns, TwoPass, Pieces, Classify, Consistent, InRange, ProperPiece, PieceInverse, UnitsOf, Joined;
    ConsistentInRange(cps, jis);
    OnePassIsTwoPass(cps, jis);
    PrevIffEndsInBase(cps, jis);
    PiecesProper(cps, jis);
    PiecesJoined(cps, jis);
    var ps, t := Pieces(cps, jis), Turns(0, cps, jis);
    if EndsInBase(cps, jis) {
      LastPiece(ps, jis);
      LastUnit(t.us, Buffered(t.prev), UnitsOf(ps[..|ps| - 1], jis), PieceUnits(ps[|ps| - 1], jis).us);
    } else {
      assert t.us + [] == t.us;
    }
  }

  lemma LastUnit(a: seq<Unit>, x: Unit, b: seq<Unit>, y: seq<Unit>)
    requires a + [x] == b + y && |y| == 1
    ensures a == b
  {
    assert a == (a + [x])[..|a|] && b == (b + y)[..|b|];
  }

  // One call each way gives a text back if and only if it has no lossy
  // character, does not end in a base that waits, and no plane-1 character is
  // read in plane 2.
  lemma TextRoundTripIff(cps: seq<Ucs>, jis: Jis)
    requires Consistent(cps, jis) && 0 !in cps && OneCall(cps, jis).ok
    ensures Inv(DEFAULT)
    ensures var us := OneCall(cps, jis).us;
            && AllValid(us)
            && var d := Decode(DEFAULT, EmitAll(DEFAULT_SHADOW, us).bytes, jis);
               d.ok && d.cps == cps <==>
                 Lossless(cps, jis) && !EndsInBase(cps, jis) && !Clash(false, Glyphs(DEFAULT_SHADOW, us))
  {
    DefaultInSync();
    hide *;
    OneCallUnits(cps, jis);
    var us, all := OneCall(cps, jis).us, Pieces(cps, jis);
    if EndsInBase(cps, jis) {
      var ps := all[..|all| - 1];
      LastPiece(all, jis);
      ReadTextLength(DEFAULT_SHADOW, false, ps, jis);
      SafeParts(us);
      DecodeUnits(us, jis);
      ShortHead([], all[|all| - 1]);
    } else {
      ReadTextLength(DEFAULT_SHADOW, false, all, jis);
      SafeParts(us);
      DecodeUnits(us, jis);
      LosslessPieces(cps, jis);
      if forall p <- all :: !VanishingPiece(p, jis) {
        ReadTextIff(DEFAULT_SHADOW, false, all, jis);
      }
    }
  }

  lemma LosslessPieces(cps: seq<Ucs>, jis: Jis)
    ensures Lossless(cps, jis) <==> forall p <- Pieces(cps, jis) :: !LossyPiece(p, jis)
    ensures Lossless(cps, jis) ==> forall p <- Pieces(cps, jis) :: !VanishingPiece(p, jis)
  {
    hide Pieces;
    forall p | p in Pieces(cps, jis) && !LossyPiece(p, jis) ensures !VanishingPiece(p, jis) {
    }
  }
}
