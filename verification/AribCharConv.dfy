// From glyphs to code points: b24_char_conv of contrib/gconv/arib-std-b24.c,
// and the complete decoder as an object that is fed bytes.

module AribCharConv {
  import opened Base
  import opened AribDecoder
  import opened AribTables

  type Ucs = nat

  const UNKNOWN_10646_CHAR: Ucs := 0xfffd

  // The JIS conversions of jis0208.h and jisx0213.h, whose tables live in
  // glibc, and the binary search of the extra-symbol table, which libc does.
  datatype Jis = Jis(
    to208: Ucs -> Option<(Byte, Byte)>,  // ucs4_to_jisx0208
    to213: Ucs -> nat,                   // ucs4_to_jisx0213, 0 when there is none
    from213: (nat, nat) -> Ucs,          // jisx0213_to_ucs4, 0 when there is none
    combining: nat -> (Ucs, Ucs),        // __jisx0213_to_ucs_combining
    extsym: Ucs -> Option<nat>           // find_extsym_idx, then the code found
  )

  function KataPunc(i: nat): Ucs
    requires i < 8
  {
    [0x30fd, 0x30fe, 0x30fc, 0x3002, 0x300c, 0x300d, 0x3001, 0x30fb][i]
  }

  function HiraPunc(i: nat): Ucs
    requires i < 2
  {
    [0x309d, 0x309e][i]
  }

  function NonspacingSymbol(i: nat): Ucs
    requires i < 6
  {
    [0x0301, 0x0300, 0x0308, 0x0302, 0x0304, 0x0332][i]
  }

  function ExtraKanji(i: nat): Ucs
    requires i < 140
  {
    if i < 96 then ExtraKanji75(i) else ExtraKanji76(i - 96)
  }

  function ExtraSymbols(row: nat, col: nat): Ucs
    requires row < 5 && col < 96
  {
    match row
    case 0 => ExtraSymbols7a(col)
    case 1 => ExtraSymbols7b(col)
    case 2 => ExtraSymbols7c(col)
    case 3 => ExtraSymbols7d(col)
    case _ => ExtraSymbols7e(col)
  }

  function SmallKanji(i: nat): seq<Ucs>
    requires i < 6
  {
    [[0x6c0f], [0x526f], [0x5143], [0x6545], [0x52ed], [0x65b0]][i]
  }

  function MusicSymbol(i: nat): seq<Ucs>
    requires i < 30
    ensures 2 <= |MusicSymbol(i)| <= 4
  {
    match i
    case 0 => [0x28, 0x76, 0x6e, 0x29]
    case 1 => [0x28, 0x6f, 0x62, 0x29]
    case 2 => [0x28, 0x63, 0x62, 0x29]
    case 3 => [0x28, 0x63, 0x65]
    case 4 => [0x6d, 0x62, 0x29]
    case 5 => [0x28, 0x68, 0x70, 0x29]
    case 6 => [0x28, 0x62, 0x72, 0x29]
    case 7 => [0x28, 0x70, 0x29]
    case 8 => [0x28, 0x73, 0x29]
    case 9 => [0x28, 0x6d, 0x73, 0x29]
    case 10 => [0x28, 0x74, 0x29]
    case 11 => [0x28, 0x62, 0x73, 0x29]
    case 12 => [0x28, 0x62, 0x29]
    case 13 => [0x28, 0x74, 0x62, 0x29]
    case 14 => [0x28, 0x76, 0x70, 0x29]
    case 15 => [0x28, 0x64, 0x73, 0x29]
    case 16 => [0x28, 0x61, 0x67, 0x29]
    case 17 => [0x28, 0x65, 0x67, 0x29]
    case 18 => [0x28, 0x76, 0x6f, 0x29]
    case 19 => [0x28, 0x66, 0x6c, 0x29]
    case 20 => [0x28, 0x6b, 0x65]
    case 21 => [0x79, 0x29]
    case 22 => [0x28, 0x73, 0x61]
    case 23 => [0x78, 0x29]
    case 24 => [0x28, 0x73, 0x79]
    case 25 => [0x6e, 0x29]
    case 26 => [0x28, 0x6f, 0x72]
    case 27 => [0x67, 0x29]
    case 28 => [0x28, 0x70, 0x65]
    case _ => [0x72, 0x29]
  }

  function ConvX0213(plane2: bool, c1: Byte, c2: Byte, jis: Jis): seq<Ucs> {
    var ch := jis.from213(c1 + (if plane2 then 0x200 else 0x100), c2);
    if ch == 0 then []
    else if ch < 0x80 then [jis.combining(ch - 1).0, jis.combining(ch - 1).1]
    else [ch]
  }

  function ConvKanji(c1: Byte, c2: Byte, jis: Jis): seq<Ucs>
    requires 0x20 <= c2 <= 0x7f
  {
    if 0x7a <= c1 <= 0x7e then
      var col := c2 - 0x20;
      if c1 == 0x7c && 0x1a <= col <= 0x1f then SmallKanji(col - 0x1a)
      else if c1 == 0x7c && 0x38 <= col <= 0x55 then MusicSymbol(col - 0x38)
      else
        var ch := ExtraSymbols(c1 - 0x7a, col);
        if ch == 0 then [] else [ch]
    else if c1 == 0x22 && c2 == 0x7e then [0x20dd]
    else if c1 == 0x21 && 0x2d <= c2 <= 0x32 then [NonspacingSymbol(c2 - 0x2d)]
    else ConvX0213(false, c1, c2, jis)
  }

  function ConvHiragana(c1: Byte): seq<Ucs>
    requires c1 <= 0x7e
  {
    if c1 <= 0x73 then [0x3020 + c1]
    else if c1 == 0x77 || c1 == 0x78 then [HiraPunc(c1 - 0x77)]
    else if c1 >= 0x79 then [KataPunc(c1 - 0x77)]
    else []
  }

  // The code points of a code in a set; none when the code is not assigned.
  // The preconditions are those of the lookups in fixed-size tables.
  function CharConv(gset: Byte, c1: Byte, c2: Byte, jis: Jis): seq<Ucs>
    requires ProperGlyph(Sym(gset, c1, c2))
  {
    if gset in {ASCII, ASCII_X, PROP_ASCII} then
      [if c1 == 0x7e then 0x203e else if c1 == 0x5c then 0xa5 else c1]
    else if gset in {KATAKANA, PROP_KATA} then
      [if c1 <= 0x76 then 0x3080 + c1 else KataPunc(c1 - 0x77)]
    else if gset in {HIRAGANA, PROP_HIRA} then ConvHiragana(c1)
    else if gset == JIS0201_KATA then if c1 > 0x5f then [] else [0xff40 + c1]
    else if gset == EXTRA_SYMBOLS && (c1 == 0x75 || (c1 == 0x76 && c2 - 0x20 <= 43)) then
      [ExtraKanji((c1 - 0x75) * 96 + (c2 - 0x20))]
    else if gset == EXTRA_SYMBOLS || gset == KANJI then ConvKanji(c1, c2, jis)
    else if gset == JISX0213_1 || gset == JISX0213_2 then ConvX0213(gset == JISX0213_2, c1, c2, jis)
    else [UNKNOWN_10646_CHAR]  // mosaic, DRCS and macro sets
  }

  function GlyphConv(g: Glyph, jis: Jis): seq<Ucs>
    requires ProperGlyph(g)
  {
    match g
    case Through(b) => [b]
    case Unknown => [UNKNOWN_10646_CHAR]
    case Sym(gset, c1, c2) => CharConv(gset, c1, c2, jis)
  }

  // Glyphs up to the first one that has no code points.
  datatype Text = Text(cps: seq<Ucs>, ok: bool)

  function Render(gs: seq<Glyph>, jis: Jis): Text
    requires forall g <- gs :: ProperGlyph(g)
  {
    if gs == [] then Text([], true)
    else
      var cps := GlyphConv(gs[0], jis);
      if cps == [] then Text([], false)
      else
        var rest := Render(gs[1..], jis);
        Text(cps + rest.cps, rest.ok)
  }

  // One byte of the complete decoder, and all of its input.
  datatype Decoded = Decoded(st: State, cps: seq<Ucs>, ok: bool)

  function DecodeStep(s: State, b: Byte, jis: Jis): Decoded
    requires Inv(s)
  {
    StepInv(s, b);
    var r := Step(s, b);
    var t := Render(r.out, jis);
    Decoded(r.st, t.cps, r.ok && t.ok)
  }

  function Decode(s: State, input: seq<Byte>, jis: Jis): Decoded
    requires Inv(s)
    decreases |input|
  {
    if input == [] then Decoded(s, [], true)
    else
      var r := DecodeStep(s, input[0], jis);
      if !r.ok then r
      else
        StepInv(s, input[0]);
        var rest := Decode(r.st, input[1..], jis);
        Decoded(rest.st, r.cps + rest.cps, rest.ok)
  }

  // How many bytes are decoded before the first illegal one.
  function Consumed(s: State, input: seq<Byte>, jis: Jis): (n: nat)
    requires Inv(s)
    ensures n <= |input|
    decreases |input|
  {
    if input == [] then 0
    else
      var r := DecodeStep(s, input[0], jis);
      if !r.ok then 0
      else
        StepInv(s, input[0]);
        1 + Consumed(r.st, input[1..], jis)
  }

  // All prefixes up to there decode, and with the next byte no longer.
  lemma {:induction false} ConsumedIsFirst(s: State, input: seq<Byte>, jis: Jis)
    requires Inv(s)
    ensures var n := Consumed(s, input, jis);
            && Decode(s, input[..n], jis).ok
            && (Decode(s, input, jis).ok <==> n == |input|)
            && (n < |input| ==> !Decode(s, input[..n + 1], jis).ok)
    decreases |input|
  {
    hide Step, Inv, DecodeStep;
    if input != [] {
      var r := DecodeStep(s, input[0], jis);
      assert input[..1][0] == input[0] && input[..1][1..] == [];
      if r.ok {
        StepKeepsInv(s, input[0], jis);
        ConsumedIsFirst(r.st, input[1..], jis);
        var n := Consumed(r.st, input[1..], jis);
        assert input[..n + 1][1..] == input[1..][..n];
        if n < |input| - 1 { assert input[..n + 2][1..] == input[1..][..n + 1]; }
      }
    } else {
      assert input[..0] == [];
    }
  }

  lemma StepKeepsInv(s: State, b: Byte, jis: Jis)
    requires Inv(s)
    ensures Inv(DecodeStep(s, b, jis).st)
  {
    hide Step;
    StepInv(s, b);
  }

  lemma {:induction false} RenderAppend(a: seq<Glyph>, b: seq<Glyph>, jis: Jis)
    requires forall g <- a + b :: ProperGlyph(g)
    requires forall g <- a :: ProperGlyph(g)
    requires forall g <- b :: ProperGlyph(g)
    ensures var x := Render(a, jis);
            var y := Render(b, jis);
            Render(a + b, jis) == if x.ok then Text(x.cps + y.cps, y.ok) else x
  {
    hide GlyphConv;
    if a == [] {
      assert a + b == b;
    } else {
      ConsAppend(a, b);
      if GlyphConv(a[0], jis) != [] {
        RenderAppend(a[1..], b, jis);
        assert GlyphConv(a[0], jis) + (Render(a[1..], jis).cps + Render(b, jis).cps)
            == GlyphConv(a[0], jis) + Render(a[1..], jis).cps + Render(b, jis).cps;
      }
    }
  }

  // The decoder puts out the rendering of the glyphs it recognises: exactly,
  // when all of them have code points; otherwise it stops where rendering stops.
  lemma {:induction false} DecodeRendersRun(s: State, input: seq<Byte>, jis: Jis)
    requires Inv(s)
    ensures SafeResult(Run(s, input))
    ensures var r := Run(s, input);
            var t := Render(r.out, jis);
            var d := Decode(s, input, jis);
            d.cps == t.cps && d.ok == (r.ok && t.ok)
    decreases |input|
  {
    hide Step;
    RunInv(s, input);
    if input != [] {
      StepInv(s, input[0]);
      var h := Step(s, input[0]);
      if h.ok {
        RunInv(h.st, input[1..]);
        DecodeRendersRun(h.st, input[1..], jis);
        RenderAppend(h.out, Run(h.st, input[1..]).out, jis);
      }
    }
  }
}
