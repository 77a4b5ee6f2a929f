// contrib/gconv/en300-468-tab00.c: the two loop bodies of the codec for
// character code table 00 of ETSI EN 300 468.

module Table00 {
  import opened Base
  import opened Table00Tables

  type Ucs = nat

  // ----- One character -----

  // The two bytes of a cell; the second one is 0 if there is only one.
  function Cell(ch: Ucs): nat { if ch < 0x17f then FromUcs4(ch) else Special(ch) }

  predicate Encodable(ch: Ucs) { Cell(ch) != 0 || ch == 0 }

  predicate Tag(ch: Ucs) { 0xe0000 <= ch < 0xe0080 }

  predicate Composed(b: Byte) { 0xc1 <= b <= 0xcf }

  // The character of a unit of one byte (b1 is 0) or two; None if illegal.
  function Char(b0: Byte, b1: Byte): Option<Ucs> {
    if Composed(b0) then
      if b1 < 0x20 || b1 >= 0x80 || ToUcs4Comb(b0, b1) == 0 then None else Some(ToUcs4Comb(b0, b1))
    else if ToUcs4(b0) == 0 && b0 != 0 then None
    else Some(ToUcs4(b0))
  }

  // ----- The tables are inverse, row by row -----

  predicate Undone(cell: nat, ch: Ucs) {
    && cell < 0x1_0000 && (Composed(cell / 256) <==> cell % 256 != 0)
    && Char(cell / 256, cell % 256) == Some(ch)
  }

  lemma Undonea4(ch: Ucs)
    requires 0xa4 <= ch < 0xc0 && Froma4(ch) != 0
    ensures Undone(Froma4(ch), ch)
  {
  }

  lemma Undonec0(ch: Ucs)
    requires 0xc0 <= ch < 0xe0 && Fromc0(ch) != 0
    ensures Undone(Fromc0(ch), ch)
  {
  }

  lemma Undonee0(ch: Ucs)
    requires 0xe0 <= ch < 0x100 && Frome0(ch) != 0
    ensures Undone(Frome0(ch), ch)
  {
  }

  lemma Undone100(ch: Ucs)
    requires 0x100 <= ch < 0x120 && From100(ch) != 0
    ensures Undone(From100(ch), ch)
  {
  }

  lemma Undone120(ch: Ucs)
    requires 0x120 <= ch < 0x140 && From120(ch) != 0
    ensures Undone(From120(ch), ch)
  {
  }

  lemma Undone140(ch: Ucs)
    requires 0x140 <= ch < 0x160 && From140(ch) != 0
    ensures Undone(From140(ch), ch)
  {
  }

  lemma Undone160(ch: Ucs)
    requires 0x160 <= ch < 0x17f && From160(ch) != 0
    ensures Undone(From160(ch), ch)
  {
  }

  lemma UndoneSpecial(ch: Ucs)
    requires Special(ch) != 0
    ensures Undone(Special(ch), ch)
  {
  }

  // The decoder undoes every cell of the encoder.
  lemma CharOfCell(ch: Ucs)
    requires Encodable(ch)
    ensures Undone(Cell(ch), ch)
  {
    if ch < 0xa4 {
      assert Cell(ch) == ch * 256;
    } else {
      hide Undone, Special, Froma4, Fromc0, Frome0, From100, From120, From140, From160;
      if ch >= 0x17f { UndoneSpecial(ch); }
      else if ch < 0xc0 { Undonea4(ch); }
      else if ch < 0xe0 { Undonec0(ch); }
      else if ch < 0x100 { Undonee0(ch); }
      else if ch < 0x120 { Undone100(ch); }
      else if ch < 0x140 { Undone120(ch); }
      else if ch < 0x160 { Undone140(ch); }
      else if ch < 0x17f { Undone160(ch); }
    }
  }

  lemma Againa4(b: nat)
    requires Onea4(b) != 0
    ensures Cell(Onea4(b)) == b * 256
  {
  }

  lemma Againb0(b: nat)
    requires Oneb0(b) != 0
    ensures Cell(Oneb0(b)) == b * 256
  {
  }

  lemma Againd0(b: nat)
    requires Oned0(b) != 0
    ensures Cell(Oned0(b)) == b * 256
  {
  }

  lemma Againe0(b: nat)
    requires Onee0(b) != 0
    ensures Cell(Onee0(b)) == b * 256
  {
  }

  lemma Againf0(b: nat)
    requires Onef0(b) != 0
    ensures Cell(Onef0(b)) == b * 256
  {
  }

  lemma CellOfSingle(b: Byte)
    requires !Composed(b) && Char(b, 0).Some?
    ensures Encodable(Char(b, 0).value) && Cell(Char(b, 0).value) == b as int * 256
  {
    if b < 0xa4 {
      assert ToUcs4(b) == b && Cell(b) == b as int * 256;
    } else {
      hide Cell, Onea4, Oneb0, Oned0, Onee0, Onef0;
      if b < 0xb0 { Againa4(b); } else if b < 0xc0 { Againb0(b); }
      else if b < 0xe0 { Againd0(b); } else if b < 0xf0 { Againe0(b); } else { Againf0(b); }
    }
  }

  lemma Rowc1(b: nat)
    requires Combc1(b) != 0
    ensures Cell(Combc1(b)) == 0xc100 + b
  {
  }

  lemma Rowc2(b: nat)
    requires Combc2(b) != 0
    ensures Cell(Combc2(b)) == 0xc200 + b
  {
  }

  lemma Rowc3(b: nat)
    requires Combc3(b) != 0
    ensures Cell(Combc3(b)) == 0xc300 + b
  {
  }

  lemma Rowc4(b: nat)
    requires Combc4(b) != 0
    ensures Cell(Combc4(b)) == 0xc400 + b
  {
  }

  lemma Rowc5(b: nat)
    requires Combc5(b) != 0
    ensures Cell(Combc5(b)) == 0xc500 + b
  {
  }

  lemma Rowc6(b: nat)
    requires Combc6(b) != 0
    ensures Cell(Combc6(b)) == 0xc600 + b
  {
  }

  lemma Rowc7(b: nat)
    requires Combc7(b) != 0
    ensures Cell(Combc7(b)) == 0xc700 + b
  {
  }

  lemma Rowc8(b: nat)
    requires Combc8(b) != 0
    ensures Cell(Combc8(b)) == 0xc800 + b
  {
  }

  lemma Rowca(b: nat)
    requires Combca(b) != 0
    ensures Cell(Combca(b)) == 0xca00 + b
  {
  }

  lemma Rowcb(b: nat)
    requires Combcb(b) != 0
    ensures Cell(Combcb(b)) == 0xcb00 + b
  {
  }

  lemma Rowcd(b: nat)
    requires Combcd(b) != 0
    ensures Cell(Combcd(b)) == 0xcd00 + b
  {
  }

  lemma Rowce(b: nat)
    requires Combce(b) != 0
    ensures Cell(Combce(b)) == 0xce00 + b
  {
  }

  lemma Rowcf(b: nat)
    requires Combcf(b) != 0
    ensures Cell(Combcf(b)) == 0xcf00 + b
  {
  }

  // The encoder undoes every cell of the decoder.
  lemma CellOfComposed(b0: Byte, b1: Byte)
    requires Composed(b0) && Char(b0, b1).Some?
    ensures Encodable(Char(b0, b1).value) && Cell(Char(b0, b1).value) == b0 as int * 256 + b1
  {
    hide Cell, Combc1, Combc2, Combc3, Combc4, Combc5, Combc6, Combc7, Combc8, Combca, Combcb, Combcd, Combce, Combcf;
    match b0
    case 0xc1 => Rowc1(b1);
    case 0xc2 => Rowc2(b1);
    case 0xc3 => Rowc3(b1);
    case 0xc4 => Rowc4(b1);
    case 0xc5 => Rowc5(b1);
    case 0xc6 => Rowc6(b1);
    case 0xc7 => Rowc7(b1);
    case 0xc8 => Rowc8(b1);
    case 0xca => Rowca(b1);
    case 0xcb => Rowcb(b1);
    case 0xcd => Rowcd(b1);
    case 0xce => Rowce(b1);
    case 0xcf => Rowcf(b1);
  }
}
