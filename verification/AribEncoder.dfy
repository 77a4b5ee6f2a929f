// The UCS-4 to ARIB STD-B24 direction of contrib/gconv/arib-std-b24.c: what the
// emitting primitives put out, which primitive a code point calls for, and the
// one-character lookahead for the composed characters of JIS X 0213.

module AribEncoder {
  import opened Base
  import opened AribDecoder
  import opened AribCharConv

  datatype Idx = KANJI_idx | ASCII_idx | HIRAGANA_idx | KATAKANA_idx | JIS0201_KATA_idx
               | JISX0213_1_idx | JISX0213_2_idx | EXTRA_SYMBOLS_idx

  type Bit = x: int | 0 <= x < 2

  // The encoder's idea of the decoder's state: G0 or G1 in GL, G2 or G3 in GR,
  // and the sets designated to G2 and G3.
  datatype Shadow = Shadow(gl: Bit, gr: Bit, g2: Idx, g3: Idx)

  const DEFAULT_SHADOW: Shadow := Shadow(0, 0, HIRAGANA_idx, KATAKANA_idx)

  // One call of an emitting primitive: out_ascii, out_jisx0201, out_katakana,
  // out_hiragana, out_kana_punc, out_kanji, out_jisx0213 and out_extsym.
  datatype Unit = Ascii(ch: Byte) | HalfKata(ch: Byte) | Kata(c: Byte) | Hira(c: Byte) | Punc(i: nat)
                | Kanji(code: nat) | X0213(code: nat, plane2: bool) | ExtSym(code: nat)

  // A two-byte code: both bytes in the graphic range of a 94-character set.
  predicate IsCode(code: nat) {
    0x21 <= code / 256 <= 0x7e && 0x21 <= code % 256 <= 0x7e
  }

  // The arguments the primitives are called with: out_kanji also gets code 0,
  // for a character of JIS X 0208 that has no code in JIS X 0213.
  predicate ValidUnit(u: Unit) {
    match u
    case Ascii(ch) => ch in {0, LF, CR, BS, 0xa0} || 0x20 <= ch <= 0x7f
    case HalfKata(ch) => 0xa1 <= ch <= 0xdf
    case Kata(c) => 0x21 <= c <= 0x7e
    case Hira(c) => 0x21 <= c <= 0x7e
    case Punc(i) => i < 10
    case Kanji(code) => IsCode(code) || code == 0
    case X0213(code, _) => IsCode(code)
    case ExtSym(code) => IsCode(code)
  }

  predicate AllValid(us: seq<Unit>) { forall u <- us :: ValidUnit(u) }

  lemma AllValidAppend(a: seq<Unit>, b: seq<Unit>)
    ensures AllValid(a + b) <==> AllValid(a) && AllValid(b)
  {
    hide ValidUnit;
    assert forall u :: u in a + b <==> u in a || u in b;
  }

  datatype Emission = Emission(bytes: seq<Byte>, sh: Shadow)

  // A byte of a one-byte set designated to G2 or G3 and invoked to GR.
  function EmitG2(sh: Shadow, idx: Idx, final: Byte, b: Byte): Emission {
    Emission((if sh.g2 != idx then [ESC, 0x2a, final] else [])
             + (if sh.gr == 1 then [ESC, LS2R] else []) + [b],
             sh.(g2 := idx, gr := 0))
  }

  function EmitG3(sh: Shadow, idx: Idx, final: Byte, b: Byte): Emission {
    Emission((if sh.g3 != idx then [ESC, 0x2b, final] else [])
             + (if sh.gr == 0 then [ESC, LS3R] else []) + [b],
             sh.(g3 := idx, gr := 1))
  }

  // A code byte pair through GR, or through GL after a single shift.
  function EmitPair(shift: seq<Byte>, code: nat): seq<Byte>
    requires IsCode(code)
  {
    if shift == [] then [0x80 + code / 256, 0x80 + code % 256] else shift + [code / 256, code % 256]
  }

  function EmitAscii(sh: Shadow, ch: Byte): Emission {
    var shift := !IsControl(ch) && sh.gl == 0 && ch != 0x20 && ch != 0x7f && ch != 0xa0;
    Emission(if shift then [LS1, ch] else [ch],
             if ch == 0 || ch == LF then DEFAULT_SHADOW else if shift then sh.(gl := 1) else sh)
  }

  // Whether a punctuation mark common to both kana sets goes out as hiragana:
  // the set invoked to GR decides, then the set that is still designated.
  predicate PuncIsHiragana(sh: Shadow, i: nat) {
    || i < 2
    || (i >= 4 && ((sh.gr == 0 && sh.g2 == HIRAGANA_idx)
                   || (!(sh.gr == 1 && sh.g3 == KATAKANA_idx)
                       && sh.g2 == HIRAGANA_idx && sh.g3 != KATAKANA_idx)))
  }

  function PuncCode(i: nat): Byte
    requires i < 10
  {
    if i < 2 then 0x77 + i else 0x75 + i
  }

  function Emit(sh: Shadow, u: Unit): Emission
    requires ValidUnit(u)
  {
    match u
    case Ascii(ch) => EmitAscii(sh, ch)
    case HalfKata(ch) => EmitG3(sh, JIS0201_KATA_idx, JIS0201_KATA, ch)
    case Kata(c) => EmitG3(sh, KATAKANA_idx, KATAKANA, 0x80 + c)
    case Hira(c) => EmitG2(sh, HIRAGANA_idx, HIRAGANA, 0x80 + c)
    case Punc(i) =>
      if PuncIsHiragana(sh, i) then EmitG2(sh, HIRAGANA_idx, HIRAGANA, 0x80 + PuncCode(i))
      else EmitG3(sh, KATAKANA_idx, KATAKANA, 0x80 + PuncCode(i))
    case Kanji(code) =>
      Emission((if sh.gl == 1 then [LS0] else []) + [code / 256, code % 256], sh.(gl := 0))
    case X0213(code, plane2) =>
      // whichever plane is designated, plane 1 is what is noted down
      if sh.g2 != (if plane2 then JISX0213_2_idx else JISX0213_1_idx) then
        Emission([ESC, 0x24, 0x2a, if plane2 then JISX0213_2 else JISX0213_1]
                 + EmitPair(if sh.gr == 1 then [SS2] else [], code),
                 sh.(g2 := JISX0213_1_idx))
      else Emission(EmitPair(if sh.gr == 1 then [SS2] else [], code), sh)
    case ExtSym(code) =>
      Emission((if sh.g3 != EXTRA_SYMBOLS_idx then [ESC, 0x24, 0x2b, EXTRA_SYMBOLS] else [])
               + EmitPair(if sh.gr == 0 then [SS3] else [], code),
               sh.(g3 := EXTRA_SYMBOLS_idx))
  }

  function EmitAll(sh: Shadow, us: seq<Unit>): Emission
    requires AllValid(us)
    decreases |us|
  {
    if us == [] then Emission([], sh)
    else
      var e := Emit(sh, us[0]);
      var rest := EmitAll(e.sh, us[1..]);
      Emission(e.bytes + rest.bytes, rest.sh)
  }

  // The bound TO_LOOP_MAX_NEEDED_TO on one primitive, and so on a run.
  lemma {:induction false} EmitAllBound(sh: Shadow, us: seq<Unit>)
    requires AllValid(us)
    ensures |us| <= |EmitAll(sh, us).bytes| <= 7 * |us|
    decreases |us|
  {
    if us != [] {
      assert 1 <= |Emit(sh, us[0]).bytes| <= 7;
      EmitAllBound(Emit(sh, us[0]).sh, us[1..]);
    }
  }

  lemma {:induction false} EmitAllAppend(sh: Shadow, a: seq<Unit>, b: seq<Unit>)
    requires AllValid(a) && AllValid(b)
    ensures AllValid(a + b)
    ensures var x := EmitAll(sh, a);
            var y := EmitAll(x.sh, b);
            EmitAll(sh, a + b).bytes == x.bytes + y.bytes && EmitAll(sh, a + b).sh == y.sh
    decreases |a|
  {
    AllValidAppend(a, b);
    hide Emit, ValidUnit;
    if a == [] {
      assert a + b == b;
    } else {
      ConsAppend(a, b);
      var e := Emit(sh, a[0]);
      EmitAllAppend(e.sh, a[1..], b);
      AppendAssoc(e.bytes, EmitAll(e.sh, a[1..]).bytes, EmitAll(EmitAll(sh, a).sh, b).bytes);
    }
  }

  // ----- From code points to units -----

  datatype Class = Direct(u: Unit) | Buffer(prev: nat) | Dropped | Unencodable

  // jch & 0x7f7f
  function Seven(jch: nat): nat { jch / 256 % 128 * 256 + jch % 128 }

  // jch & 0x0080: a character that may be the base of a composed one.
  predicate MayCompose(jch: nat) { jch / 128 % 2 == 1 }

  // jch & 0x8000
  predicate IsPlane2(jch: nat) { jch / 0x8000 % 2 == 1 }

  function ToJisx0201(ch: Ucs): Option<Byte>
    requires ch > 0xa0
  {
    if ch == 0xa5 then Some(0x5c)
    else if ch == 0x203e then Some(0x7e)
    else if 0xff61 <= ch <= 0xff9f then Some(ch - 0xfec0)
    else None
  }

  // The position in hira_punc followed by kata_punc.
  function IsKanaPunc(ch: Ucs): Option<nat> {
    match ch
    case 0x309d => Some(0)
    case 0x309e => Some(1)
    case 0x30fd => Some(2)
    case 0x30fe => Some(3)
    case 0x30fc => Some(4)
    case 0x3002 => Some(5)
    case 0x300c => Some(6)
    case 0x300d => Some(7)
    case 0x3001 => Some(8)
    case 0x30fb => Some(9)
    case _ => None
  }

  // The characters UNICODE_TAG_HANDLER passes over.
  predicate IsTag(ch: Ucs) { 0xe0000 <= ch <= 0xe007f }

  predicate IsNonspacing(jch: nat) { jch == 0x227e || 0x212d <= jch <= 0x2132 }

  function ClassifyJis(ch: Ucs, jis: Jis): Class {
    var jch := jis.to213(ch);
    match jis.to208(ch)
    case Some((b0, b1)) =>
      if MayCompose(jch) then Buffer(Seven(jch))
      else if b0 == 0x24 then Direct(Hira(b1))
      else if b0 == 0x25 then Direct(Kata(b1))
      else if IsNonspacing(jch) then Direct(X0213(jch, false))
      else Direct(Kanji(jch))
    case None =>
      if MayCompose(jch) then Buffer(0x10000 + Seven(jch))
      else if jis.extsym(ch).Some? then Direct(ExtSym(jis.extsym(ch).value))
      else if jch != 0 then Direct(X0213(Seven(jch), IsPlane2(jch)))
      else if IsTag(ch) then Dropped
      else Unencodable
  }

  function Classify(ch: Ucs, jis: Jis): Class {
    if ch <= 0xa0 then
      if !IsControl(ch) || ch in {0, LF, CR, BS} then Direct(Ascii(ch)) else Unencodable
    else if ToJisx0201(ch).Some? then
      var b := ToJisx0201(ch).value;
      if b < 0x80 then Direct(Ascii(b)) else Direct(HalfKata(b))
    else if IsKanaPunc(ch).Some? then Direct(Punc(IsKanaPunc(ch).value))
    else ClassifyJis(ch, jis)
  }

  // What out_buffered does with st.prev.
  function Buffered(prev: nat): Unit {
    if prev >= 0x10000 then X0213(Seven(prev), false)
    else if prev / 256 % 128 == 0x24 then Hira(prev % 128)
    else if prev / 256 % 128 == 0x25 then Kata(prev % 128)
    else Kanji(Seven(prev))
  }

  const COMP_TABLE_LEN: nat := 25

  // comp_table_data: the base and the composed code.
  function CompTable(i: nat): (nat, nat)
    requires i < COMP_TABLE_LEN
  {
    match i
    case 0 => (0x2b64, 0x2b65) case 1 => (0x2b60, 0x2b66) case 2 => (0x295c, 0x2b44)
    case 3 => (0x2b38, 0x2b48) case 4 => (0x2b37, 0x2b4a) case 5 => (0x2b30, 0x2b4c)
    case 6 => (0x2b43, 0x2b4e) case 7 => (0x2b38, 0x2b49) case 8 => (0x2b37, 0x2b4b)
    case 9 => (0x2b30, 0x2b4d) case 10 => (0x2b43, 0x2b4f) case 11 => (0x242b, 0x2477)
    case 12 => (0x242d, 0x2478) case 13 => (0x242f, 0x2479) case 14 => (0x2431, 0x247a)
    case 15 => (0x2433, 0x247b) case 16 => (0x252b, 0x2577) case 17 => (0x252d, 0x2578)
    case 18 => (0x252f, 0x2579) case 19 => (0x2531, 0x257a) case 20 => (0x2533, 0x257b)
    case 21 => (0x253b, 0x257c) case 22 => (0x2544, 0x257d) case 23 => (0x2548, 0x257e)
    case _ => (0x2675, 0x2678)
  }

  // The part of the table that belongs to a combining character.
  function CompStart(ch: Ucs): nat
    ensures CompStart(ch) + CompLen(ch) <= COMP_TABLE_LEN
  {
    match ch
    case 0x02e5 => 0
    case 0x02e9 => 1
    case 0x0300 => 2
    case 0x0301 => 7
    case 0x309a => 11
    case _ => 0
  }

  function CompLen(ch: Ucs): nat {
    match ch
    case 0x02e5 => 1
    case 0x02e9 => 1
    case 0x0300 => 5
    case 0x0301 => 4
    case 0x309a => 14
    case _ => 0
  }

  // The first entry from i on, n entries long, with this base.
  function FindBase(i: nat, n: nat, base: nat): (r: Option<nat>)
    requires i + n <= COMP_TABLE_LEN
    ensures r.Some? ==> i <= r.value < i + n && CompTable(r.value).0 == base
    ensures r.None? ==> forall k :: i <= k < i + n ==> CompTable(k).0 != base
    decreases n
  {
    if n == 0 then None
    else if CompTable(i).0 == base then Some(i)
    else FindBase(i + 1, n - 1, base)
  }

  // The composed code of a buffered base and the combining character ch.
  function Composed(prev: nat, ch: Ucs): Option<nat> {
    match FindBase(CompStart(ch), CompLen(ch), Seven(prev))
    case Some(k) => Some(CompTable(k).1)
    case None => None
  }

  // One turn of the loop: the units put out, the new buffer, and whether the
  // code point is encodable.
  datatype Turn = Turn(us: seq<Unit>, prev: nat, ok: bool)

  function TurnPlain(ch: Ucs, jis: Jis): Turn {
    match Classify(ch, jis)
    case Direct(u) => Turn([u], 0, true)
    case Buffer(p) => Turn([], p, true)
    case Dropped => Turn([], 0, true)
    case Unencodable => Turn([], 0, false)
  }

  function TakeTurn(prev: nat, ch: Ucs, jis: Jis): Turn {
    if prev == 0 then TurnPlain(ch, jis)
    else match Composed(prev, ch)
      case Some(code) => Turn([X0213(code, false)], 0, true)
      case None => var t := TurnPlain(ch, jis); Turn([Buffered(prev)] + t.us, t.prev, t.ok)
  }

  function Turns(prev: nat, cps: seq<Ucs>, jis: Jis): Turn
    decreases |cps|
  {
    if cps == [] then Turn([], prev, true)
    else
      var t := TakeTurn(prev, cps[0], jis);
      if !t.ok then t
      else
        var rest := Turns(t.prev, cps[1..], jis);
        Turn(t.us + rest.us, rest.prev, rest.ok)
  }

  datatype Chosen = Chosen(us: seq<Unit>, ok: bool)

  // The loop, and then the buffered character, if a flush sees it.
  function Flush(prev: nat): seq<Unit> { if prev == 0 then [] else [Buffered(prev)] }

  function OnePass(prev: nat, cps: seq<Ucs>, jis: Jis): Chosen {
    var t := Turns(prev, cps, jis);
    Chosen(t.us + Flush(t.prev), t.ok)
  }

  // ----- The same in two passes -----

  // First every adjacent base and combining character is paired, from the
  // left; then every piece is turned into units on its own.
  datatype Piece = Single(ch: Ucs) | Pair(base: Ucs, mark: Ucs, code: nat)

  function PairCode(base: Ucs, mark: Ucs, jis: Jis): Option<nat> {
    match Classify(base, jis)
    case Buffer(p) => Composed(p, mark)
    case _ => None
  }

  function Pieces(cps: seq<Ucs>, jis: Jis): seq<Piece> {
    if cps == [] then []
    else if |cps| >= 2 && PairCode(cps[0], cps[1], jis).Some? then
      [Pair(cps[0], cps[1], PairCode(cps[0], cps[1], jis).value)] + Pieces(cps[2..], jis)
    else [Single(cps[0])] + Pieces(cps[1..], jis)
  }

  function PieceText(p: Piece): seq<Ucs> {
    match p
    case Single(ch) => [ch]
    case Pair(base, mark, _) => [base, mark]
  }

  function PieceUnits(p: Piece, jis: Jis): Chosen {
    match p
    case Pair(_, _, code) => Chosen([X0213(code, false)], true)
    case Single(ch) =>
      match Classify(ch, jis)
      case Direct(u) => Chosen([u], true)
      case Buffer(prev) => Chosen([Buffered(prev)], true)
      case Dropped => Chosen([], true)
      case Unencodable => Chosen([], false)
  }

  function TwoPass(ps: seq<Piece>, jis: Jis): Chosen {
    if ps == [] then Chosen([], true)
    else
      var c := PieceUnits(ps[0], jis);
      if !c.ok then c
      else
        var rest := TwoPass(ps[1..], jis);
        Chosen(c.us + rest.us, rest.ok)
  }

  // What is asked of the tables behind jis0208.h and jisx0213.h about one code
  // point: codes are in range; a character in both JIS X 0208 and JIS X 0213 has
  // one code, in plane 1; and what may be a base is in plane 1 and, if it is in
  // JIS X 0208 at all, is a kana (the comment and assertion of the source say
  // as much).
  predicate CodesInRange(ch: Ucs, jis: Jis) {
    var jch := jis.to213(ch);
    && (jch != 0 ==> IsCode(Seven(jch)) && jch < 0x10000)
    && (MayCompose(jch) ==> !IsPlane2(jch))
    && (jis.to208(ch).Some? ==>
          var (b0, b1) := jis.to208(ch).value;
          && 0x21 <= b0 < 0x7a && 0x21 <= b1 <= 0x7e
          && (jch != 0 ==> !IsPlane2(jch) && Seven(jch) == b0 * 256 + b1)
          && (MayCompose(jch) ==> b0 == 0x24 || b0 == 0x25))
    && (jis.extsym(ch).Some? ==> IsCode(jis.extsym(ch).value))
  }

  // The same about the code points of a text.
  predicate InRange(cps: seq<Ucs>, jis: Jis) { forall ch <- cps :: CodesInRange(ch, jis) }

  lemma InRangeFrom(cps: seq<Ucs>, i: nat, jis: Jis)
    requires InRange(cps, jis) && i <= |cps|
    ensures InRange(cps[i..], jis)
    ensures i < |cps| ==> CodesInRange(cps[i], jis)
  {
    hide CodesInRange;
    assert forall ch <- cps[i..] :: ch in cps;
  }

  lemma ComposedIsCode(prev: nat, ch: Ucs)
    ensures Composed(prev, ch).Some? ==> IsCode(Composed(prev, ch).value)
  {
  }

  lemma SevenOfSeven(x: nat)
    ensures Seven(Seven(x)) == Seven(x) && Seven(0x10000 + Seven(x)) == Seven(x)
    ensures Seven(x) < 0x8000 && Seven(x) / 256 == x / 256 % 128 && Seven(x) % 256 == x % 128
    ensures (0x10000 + Seven(x)) / 256 % 128 == x / 256 % 128
  {
    var hi, lo := x / 256 % 128, x % 128;
    assert (0x10000 + Seven(x)) / 256 == 256 + hi;
    assert (0x10000 + Seven(x)) % 128 == lo;
  }

  lemma UnflaggedIsSeven(jch: nat)
    requires jch < 0x10000 && !IsPlane2(jch) && !MayCompose(jch)
    ensures Seven(jch) == jch
  {
    var q := jch / 128;
    assert q % 2 == 0 && q < 512;
    assert jch / 256 == q / 2;
  }

  lemma BufferedValid(jch: nat, high: nat)
    requires IsCode(Seven(jch)) && (high == 0 || high == 0x10000)
    ensures var p := high + Seven(jch);
            p != 0 && Seven(p) == Seven(jch) && ValidUnit(Buffered(p))
  {
    SevenOfSeven(jch);
    hide Seven;
    assert (high + Seven(jch)) % 128 == jch % 128;
  }

  predicate ValidClass(c: Class, jch: nat) {
    match c
    case Direct(u) => ValidUnit(u)
    case Buffer(p) => p != 0 && ValidUnit(Buffered(p)) && Seven(p) == Seven(jch)
    case _ => true
  }

  lemma ClassifyJisValid(ch: Ucs, jis: Jis)
    requires CodesInRange(ch, jis)
    ensures ValidClass(ClassifyJis(ch, jis), jis.to213(ch))
  {
    var jch := jis.to213(ch);
    if jch != 0 {
      BufferedValid(jch, 0);
      BufferedValid(jch, 0x10000);
      SevenOfSeven(jch);
      if !IsPlane2(jch) && !MayCompose(jch) {
        UnflaggedIsSeven(jch);
      }
    } else {
      assert !MayCompose(0);
    }
    hide Seven, Buffered, MayCompose, IsPlane2;
  }

  lemma ClassifyValid(ch: Ucs, jis: Jis)
    requires CodesInRange(ch, jis)
    ensures ValidClass(Classify(ch, jis), jis.to213(ch))
  {
    hide ClassifyJis, CodesInRange, Buffered;
    ClassifyJisValid(ch, jis);
  }

  // What may be in the buffer.
  predicate ValidPrev(prev: nat) { prev != 0 ==> ValidUnit(Buffered(prev)) }

  lemma TakeTurnValid(prev: nat, ch: Ucs, jis: Jis)
    requires ValidPrev(prev) && CodesInRange(ch, jis)
    ensures var t := TakeTurn(prev, ch, jis);
            ValidPrev(t.prev) && AllValid(t.us)
  {
    ClassifyValid(ch, jis);
    ComposedIsCode(prev, ch);
    hide Classify, Composed, Buffered, CodesInRange;
  }

  lemma {:induction false} TurnsValid(prev: nat, cps: seq<Ucs>, jis: Jis)
    requires ValidPrev(prev) && InRange(cps, jis)
    ensures var t := Turns(prev, cps, jis);
            ValidPrev(t.prev) && AllValid(t.us)
    decreases |cps|
  {
    if cps != [] {
      InRangeFrom(cps, 0, jis);
      InRangeFrom(cps, 1, jis);
      TakeTurnValid(prev, cps[0], jis);
      hide TakeTurn, InRange, CodesInRange, ValidUnit, ValidPrev;
      if TakeTurn(prev, cps[0], jis).ok {
        TurnsValid(TakeTurn(prev, cps[0], jis).prev, cps[1..], jis);
      }
    }
  }

  // Splitting into pieces loses, duplicates and reorders nothing.
  function Joined(ps: seq<Piece>): seq<Ucs> {
    if ps == [] then [] else PieceText(ps[0]) + Joined(ps[1..])
  }

  lemma {:induction false} PiecesJoined(cps: seq<Ucs>, jis: Jis)
    ensures Joined(Pieces(cps, jis)) == cps
  {
    if cps == [] {
    } else if |cps| >= 2 && PairCode(cps[0], cps[1], jis).Some? {
      PiecesJoined(cps[2..], jis);
      assert Pieces(cps, jis)[1..] == Pieces(cps[2..], jis);
    } else {
      PiecesJoined(cps[1..], jis);
      assert Pieces(cps, jis)[1..] == Pieces(cps[1..], jis);
    }
  }

  // No pair is missed: two neighbouring single code points do not combine.
  lemma {:induction false} PiecesMaximal(cps: seq<Ucs>, i: nat, jis: Jis)
    requires i + 1 < |Pieces(cps, jis)|
    ensures var ps := Pieces(cps, jis);
            && (ps[i].Single? && ps[i + 1].Single? ==> PairCode(ps[i].ch, ps[i + 1].ch, jis).None?)
            && (ps[i].Pair? ==> PairCode(ps[i].base, ps[i].mark, jis) == Some(ps[i].code))
    decreases i
  {
    var n := if |cps| >= 2 && PairCode(cps[0], cps[1], jis).Some? then 2 else 1;
    assert Pieces(cps, jis)[1..] == Pieces(cps[n..], jis);
    if i > 0 {
      PiecesMaximal(cps[n..], i - 1, jis);
    }
  }

  // The first piece of a text, if no base is buffered for it, and of a text
  // that starts with a base.
  lemma PlainPiece(cps: seq<Ucs>, jis: Jis)
    requires cps != [] && !Classify(cps[0], jis).Buffer?
    ensures Pieces(cps, jis) == [Single(cps[0])] + Pieces(cps[1..], jis)
  {
    hide Classify, Composed;
  }

  lemma BasePiece(base: Ucs, prev: nat, cps: seq<Ucs>, jis: Jis)
    requires Classify(base, jis) == Buffer(prev)
    ensures Pieces([base] + cps, jis)
         == if cps != [] && Composed(prev, cps[0]).Some?
            then [Pair(base, cps[0], Composed(prev, cps[0]).value)] + Pieces(cps[1..], jis)
            else [Single(base)] + Pieces(cps, jis)
  {
    hide Classify, Composed;
    var all := [base] + cps;
    assert all[1..] == cps;
    if cps != [] { assert all[2..] == cps[1..]; }
  }

  lemma TwoPassCons(p: Piece, rest: seq<Piece>, jis: Jis)
    ensures var c, d := PieceUnits(p, jis), TwoPass(rest, jis);
            TwoPass([p] + rest, jis) == if c.ok then Chosen(c.us + d.us, d.ok) else c
  {
    hide PieceUnits;
    assert ([p] + rest)[1..] == rest;
  }

  // One turn, and then the rest.
  lemma OnePassStep(prev: nat, cps: seq<Ucs>, jis: Jis)
    requires cps != []
    ensures var t := TakeTurn(prev, cps[0], jis);
            var rest := OnePass(t.prev, cps[1..], jis);
            OnePass(prev, cps, jis)
            == if t.ok then Chosen(t.us + rest.us, rest.ok) else Chosen(t.us + Flush(t.prev), false)
  {
    hide TakeTurn, Flush;
    var t := TakeTurn(prev, cps[0], jis);
    if t.ok {
      var rest := Turns(t.prev, cps[1..], jis);
      AppendAssoc(t.us, rest.us, Flush(rest.prev));
    }
  }

  // The loop with its buffer, and a flush that sees the buffer, do what the two
  // passes do.
  lemma {:induction false} OnePassIsTwoPass(cps: seq<Ucs>, jis: Jis)
    requires InRange(cps, jis)
    ensures OnePass(0, cps, jis) == TwoPass(Pieces(cps, jis), jis)
    decreases |cps|, 0
  {
    if cps != [] {
      InRangeFrom(cps, 0, jis);
      InRangeFrom(cps, 1, jis);
      ClassifyValid(cps[0], jis);
      hide InRange, CodesInRange, Classify, Composed, Pieces, TwoPass, OnePass;
      OnePassStep(0, cps, jis);
      if Classify(cps[0], jis).Buffer? {
        BufferedIsTwoPass(cps[0], Classify(cps[0], jis).prev, cps[1..], jis);
        assert [cps[0]] + cps[1..] == cps;
      } else {
        PlainPiece(cps, jis);
        TwoPassCons(Single(cps[0]), Pieces(cps[1..], jis), jis);
        OnePassIsTwoPass(cps[1..], jis);
      }
    }
  }

  lemma {:induction false} BufferedIsTwoPass(base: Ucs, prev: nat, cps: seq<Ucs>, jis: Jis)
    requires InRange(cps, jis)
    requires Classify(base, jis) == Buffer(prev) && prev != 0
    ensures OnePass(prev, cps, jis) == TwoPass(Pieces([base] + cps, jis), jis)
    decreases |cps|, 1
  {
    hide InRange, CodesInRange, Classify, Composed, Pieces, TwoPass;
    BasePiece(base, prev, cps, jis);
    if cps != [] && Composed(prev, cps[0]).Some? {
      InRangeFrom(cps, 1, jis);
      TwoPassCons(Pair(base, cps[0], Composed(prev, cps[0]).value), Pieces(cps[1..], jis), jis);
      OnePassIsTwoPass(cps[1..], jis);
    } else {
      TwoPassCons(Single(base), Pieces(cps, jis), jis);
      OnePassIsTwoPass(cps, jis);
      if cps != [] {
        var t := TurnPlain(cps[0], jis);
        AppendAssoc([Buffered(prev)], t.us, Turns(t.prev, cps[1..], jis).us);
      }
    }
  }

  // ----- What one call of the converter puts out -----

  // The loop works on a copy of the state and never stores it, so that the flush
  // has nothing to emit: a call chooses what the turns of the loop choose.
  function OneCall(cps: seq<Ucs>, jis: Jis): Chosen {
    var t := Turns(0, cps, jis);
    Chosen(t.us, t.ok)
  }

  // The last piece of the text is a base without a combining character.
  predicate EndsInBase(cps: seq<Ucs>, jis: Jis) {
    var ps := Pieces(cps, jis);
    ps != [] && ps[|ps| - 1].Single? && Classify(ps[|ps| - 1].ch, jis).Buffer?
  }

  lemma EndsInLast(p: Piece, rest: seq<Piece>)
    ensures var ps := [p] + rest;
            ps[|ps| - 1] == if rest == [] then p else rest[|rest| - 1]
  {
  }

  lemma {:induction false} PrevIffEndsInBase(cps: seq<Ucs>, jis: Jis)
    requires InRange(cps, jis) && Turns(0, cps, jis).ok
    ensures Turns(0, cps, jis).prev != 0 <==> EndsInBase(cps, jis)
    decreases |cps|, 0
  {
    if cps != [] {
      InRangeFrom(cps, 0, jis);
      InRangeFrom(cps, 1, jis);
      ClassifyValid(cps[0], jis);
      hide InRange, CodesInRange, Classify, Composed, Pieces;
      if Classify(cps[0], jis).Buffer? {
        PrevAfterBase(cps[0], Classify(cps[0], jis).prev, cps[1..], jis);
        assert [cps[0]] + cps[1..] == cps;
      } else {
        PlainPiece(cps, jis);
        EndsInLast(Single(cps[0]), Pieces(cps[1..], jis));
        PrevIffEndsInBase(cps[1..], jis);
      }
    }
  }

  lemma {:induction false} PrevAfterBase(base: Ucs, prev: nat, cps: seq<Ucs>, jis: Jis)
    requires InRange(cps, jis) && Turns(prev, cps, jis).ok
    requires Classify(base, jis) == Buffer(prev) && prev != 0
    ensures Turns(prev, cps, jis).prev != 0 <==> EndsInBase([base] + cps, jis)
    decreases |cps|, 1
  {
    hide InRange, CodesInRange, Classify, Composed, Pieces;
    BasePiece(base, prev, cps, jis);
    NoPieces(jis);
    if cps != [] && Composed(prev, cps[0]).Some? {
      InRangeFrom(cps, 1, jis);
      EndsInLast(Pair(base, cps[0], Composed(prev, cps[0]).value), Pieces(cps[1..], jis));
      PrevIffEndsInBase(cps[1..], jis);
    } else {
      EndsInLast(Single(base), Pieces(cps, jis));
      if cps != [] {
        PrevIffEndsInBase(cps, jis);
        SomePieces(cps, jis);
      }
    }
  }

  lemma NoPieces(jis: Jis)
    ensures Pieces([], jis) == []
  {
  }

  lemma SomePieces(cps: seq<Ucs>, jis: Jis)
    requires cps != []
    ensures Pieces(cps, jis) != []
  {
  }

  // An unencodable character leaves the buffer empty.
  lemma {:induction false} NothingBuffered(prev: nat, cps: seq<Ucs>, jis: Jis)
    requires !Turns(prev, cps, jis).ok
    ensures Turns(prev, cps, jis).prev == 0
    decreases |cps|
  {
    hide Classify, Composed;
    if TakeTurn(prev, cps[0], jis).ok {
      NothingBuffered(TakeTurn(prev, cps[0], jis).prev, cps[1..], jis);
    }
  }

  // A call chooses what the two passes choose, unless the text ends in a base
  // that nothing has combined with: that one is lost.
  lemma OneCallIsTwoPassIff(cps: seq<Ucs>, jis: Jis)
    requires InRange(cps, jis)
    ensures OneCall(cps, jis) == TwoPass(Pieces(cps, jis), jis)
       <==> !(OneCall(cps, jis).ok && EndsInBase(cps, jis))
  {
    hide Turns, EndsInBase, TwoPass;
    OnePassIsTwoPass(cps, jis);
    if OneCall(cps, jis).ok { PrevIffEndsInBase(cps, jis); } else { NothingBuffered(0, cps, jis); }
    assert Turns(0, cps, jis).us + [] == Turns(0, cps, jis).us;
  }
}
