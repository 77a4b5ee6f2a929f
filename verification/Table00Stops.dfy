// Where the loops of contrib/gconv/en300-468-tab00.c stop in the middle of a text,
// and some characters byte for byte.

module Table00Stops {
  import opened Base
  import opened Table00
  import opened Table00Loops

  // ----- Characters -----

  lemma AsciiUnits(ch: Ucs)
    requires ch < 0xa4
    ensures Encodable(ch) && Unit(ch) == [ch as Byte]
  {
  }

  // The euro sign, a German umlaut, an acute accent, a cedilla, a caron alone.
  lemma SomeUnits()
    ensures Encodable(0x20ac) && Unit(0x20ac) == [0xa4]
    ensures Encodable(0xe4) && Unit(0xe4) == [0xc8, 0x61]
    ensures Encodable(0xe9) && Unit(0xe9) == [0xc2, 0x65]
    ensures Encodable(0xe7) && Unit(0xe7) == [0xcb, 0x63]
    ensures Encodable(0x2c7) && Unit(0x2c7) == [0xcf, 0x20]
  {
  }

  // Bytes stand for a character if and only if one is encoded as them.
  lemma CharIff(b0: Byte, b1: Byte, ch: Ucs)
    requires !Composed(b0) ==> b1 == 0
    ensures Char(b0, b1) == Some(ch) <==> Encodable(ch) && Unit(ch) == if Composed(b0) then [b0, b1] else [b0]
  {
    if Char(b0, b1) == Some(ch) { UnitOfChar(b0, b1); }
    if Encodable(ch) { CharOfCell(ch); }
    hide Char, Cell;
  }

  // The second byte of a composed character is one of ASCII.
  lemma SecondByteRange(b0: Byte, b1: Byte)
    requires 0xc1 <= b0 <= 0xcf && Char(b0, b1).Some?
    ensures 0x20 <= b1 < 0x80
  {
  }

  // ----- The encoder -----

  // It stops at the first character that has no code and is no tag, with all
  // before it written; what follows does not matter.
  lemma {:induction false} ToStops(a: seq<Ucs>, ch: Ucs, b: seq<Ucs>, room: nat)
    requires Clean(a) && !Encodable(ch) && !(0xe0000 <= ch <= 0xe007f) && room > |EncodeAll(a)|
    ensures To(a + [ch] + b, room) == Conversion(EncodeAll(a), |a|, Illegal)
    decreases |a|
  {
    hide Encodable, Unit, EncodeAll, Clean;
    var s := a + [ch] + b;
    if a == [] {
      NothingLeft();
      assert s[0] == ch;
    } else {
      CleanTail(a);
      assert s[0] == a[0] && s[1..] == a[1..] + [ch] + b;
      hide To, Tag;
      ToOne(s, room);
      ToStops(a[1..], ch, b, if Encodable(a[0]) then room - |Unit(a[0])| else room);
    }
  }

  // The first turn of the loop on a character that is written or passed over.
  lemma ToOne(cps: seq<Ucs>, room: nat)
    requires cps != [] && room > 0
    ensures Encodable(cps[0]) && |Unit(cps[0])| <= room ==>
              var rest := To(cps[1..], room - |Unit(cps[0])|);
              To(cps, room) == Conversion(Unit(cps[0]) + rest.written, 1 + rest.used, rest.status)
    ensures !Encodable(cps[0]) && Tag(cps[0]) ==>
              var rest := To(cps[1..], room);
              To(cps, room) == Conversion([] + rest.written, 1 + rest.used, rest.status)
  {
    hide Encodable, Unit, Tag;
    assert forall w: seq<Byte> :: [] + w == w;
  }

  // Tags are 0xe0000 to 0xe007f: nothing is written for them.
  lemma TagsPassedOver(ch: Ucs, room: nat)
    requires room > 0 && !Encodable(ch)
    ensures To([ch], room) == if 0xe0000 <= ch <= 0xe007f then Conversion([], 1, Empty) else Conversion([], 0, Illegal)
  {
    hide Encodable, Unit;
    assert [ch][1..] == [];
    assert To([], room) == Conversion([], 0, Empty);
  }

  // ----- The decoder -----

  // It stops at the first bytes that no character is encoded as, and before a
  // composing byte that is the last.
  lemma {:induction false} FromStops(a: seq<Ucs>, b: seq<Byte>, room: nat)
    requires Clean(a) && room > |a| && b != []
    requires (0xc1 <= b[0] <= 0xcf && |b| == 1) || StandsForNothing(b)
    ensures From(EncodeAll(a) + b, room)
         == Conversion(WithoutTags(a), |EncodeAll(a)|, if StandsForNothing(b) then Illegal else Incomplete)
    decreases |a|
  {
    hide *;
    NothingLeft();
    if a == [] {
      assert [] + b == b;
      FromBad(b, room);
    } else {
      var ch := a[0];
      if Tag(ch) { TagHasNoCell(ch); }
      CleanTail(a);
      TagsStep(a);
      var rest := EncodeAll(a[1..]);
      if Encodable(ch) {
        AppendAssoc(Unit(ch), rest, b);
        FromUnit(ch, rest + b, room);
        FromStops(a[1..], b, room - 1);
      } else {
        FromStops(a[1..], b, room);
        assert [] + rest == rest && [] + WithoutTags(a[1..]) == WithoutTags(a[1..]);
      }
    }
  }

  // No character is encoded as the first byte, or the first two behind a
  // composing one.
  ghost predicate StandsForNothing(b: seq<Byte>) {
    && b != [] && (0xc1 <= b[0] <= 0xcf ==> |b| >= 2)
    && forall ch | Encodable(ch) :: Unit(ch) != if 0xc1 <= b[0] <= 0xcf then b[..2] else b[..1]
  }

  lemma FromBad(b: seq<Byte>, room: nat)
    requires b != [] && room > 0 && ((0xc1 <= b[0] <= 0xcf && |b| == 1) || StandsForNothing(b))
    ensures From(b, room) == Conversion([], 0, if StandsForNothing(b) then Illegal else Incomplete)
  {
    if StandsForNothing(b) {
      var b1 := if Composed(b[0]) then b[1] else 0;
      assert (if Composed(b[0]) then b[..2] else b[..1]) == if Composed(b[0]) then [b[0], b1] else [b[0]];
      if Char(b[0], b1).Some? { CharIff(b[0], b1, Char(b[0], b1).value); }
    }
    hide Char, Encodable, Unit;
  }
}
