// The conversion loops of contrib/gconv/en300-468-tab00.c, and what they make of
// whole texts.  The loop around a body ends at the end of the input, or when the
// output has no room for a character (when encoding: for one byte).

module Table00Loops {
  import opened Base
  import opened Table00

  datatype Status = Empty | Full | Illegal | Incomplete

  // What a call writes, how much of the input it uses, and why it ends.
  datatype Conversion<T> = Conversion(written: seq<T>, used: nat, status: Status)

  // The bytes of one character.
  function Unit(ch: Ucs): (b: seq<Byte>)
    requires Encodable(ch)
    ensures 1 <= |b| <= 2
  {
    CharOfCell(ch);
    if Cell(ch) % 256 == 0 then [Cell(ch) / 256] else [Cell(ch) / 256, Cell(ch) % 256]
  }

  // ----- Specification of the loops -----

  function To(cps: seq<Ucs>, room: nat): (r: Conversion<Byte>)
    ensures r.used <= |cps| && |r.written| <= room
    decreases |cps|
  {
    if cps == [] then Conversion([], 0, Empty)
    else if room == 0 then Conversion([], 0, Full)
    else if Encodable(cps[0]) then
      var unit := Unit(cps[0]);
      if |unit| > room then Conversion([], 0, Full)
      else
        var rest := To(cps[1..], room - |unit|);
        Conversion(unit + rest.written, 1 + rest.used, rest.status)
    else if Tag(cps[0]) then
      var rest := To(cps[1..], room);
      rest.(used := 1 + rest.used)
    else Conversion([], 0, Illegal)
  }

  function From(b: seq<Byte>, room: nat): (r: Conversion<Ucs>)
    ensures r.used <= |b| && |r.written| <= room
    decreases |b|
  {
    if b == [] then Conversion([], 0, Empty)
    else if room == 0 then Conversion([], 0, Full)
    else if Composed(b[0]) && |b| < 2 then Conversion([], 0, Incomplete)
    else
      var n := if Composed(b[0]) then 2 else 1;
      match Char(b[0], if n == 2 then b[1] else 0)
      case None => Conversion([], 0, Illegal)
      case Some(ch) =>
        var rest := From(b[n..], room - 1);
        Conversion([ch] + rest.written, n + rest.used, rest.status)
  }

  // ----- The loops -----

  // The body of the encoder on one character, at outptr; the pointer that was
  // already advanced goes back when the second byte does not fit.
  method ToBody(ch: Ucs, outbuf: array<Byte>, start: nat) returns (result: Status, used: bool, outptr: nat)
    requires start < outbuf.Length
    modifies outbuf
    ensures outbuf[..start] == old(outbuf[..start]) && start <= outptr <= outbuf.Length
    ensures used <==> Tag(ch) || (Encodable(ch) && |Unit(ch)| <= outbuf.Length - start)
    ensures used ==> result == Empty
    ensures used ==> outbuf[start..outptr] == if Encodable(ch) then Unit(ch) else []
    ensures !used ==> outptr == start && result == if Encodable(ch) then Full else Illegal
  {
    outptr, used, result := start, false, Empty;
    var cp := Cell(ch);
    if ch >= 0x17f {
      if cp == 0 {
        if Tag(ch) { used := true; return; }
        result := Illegal;
        return;
      }
    } else if cp / 256 == 0 && ch != 0 {
      CellHasFirst(ch);
      result := Illegal;
      return;
    }
    CharOfCell(ch);
    hide Cell, Char;
    outbuf[outptr] := cp / 256;
    outptr := outptr + 1;
    if cp % 256 != 0 {
      if outptr >= outbuf.Length {
        outptr := outptr - 1;
        result := Full;
        return;
      }
      outbuf[outptr] := cp % 256;
      outptr := outptr + 1;
    }
    used := true;
  }

  lemma CellHasFirst(ch: Ucs)
    requires Cell(ch) / 256 == 0 && ch != 0
    ensures !Encodable(ch)
  {
    if Encodable(ch) { CharOfCell(ch); }
  }

  lemma TagHasNoCell(ch: Ucs)
    requires Tag(ch)
    ensures !Encodable(ch)
  {
  }

  method ToLoop(input: array<Ucs>, start: nat, outbuf: array<Byte>)
    returns (result: Status, inptr: nat, outptr: nat)
    requires start <= input.Length
    modifies outbuf
    ensures start <= inptr <= input.Length && outptr <= outbuf.Length
    ensures To(input[start..], outbuf.Length) == Conversion(outbuf[..outptr], inptr - start, result)
  {
    hide Encodable, Unit, Tag, To;
    inptr, outptr := start, 0;
    ghost var s := input[start..];
    ghost var all := To(s, outbuf.Length);
    ToStart(s, outbuf.Length);
    while inptr != input.Length
      invariant start <= inptr <= input.Length && 0 <= outptr <= outbuf.Length
      invariant Joined(all, outbuf[..outptr], inptr - start, To(s[inptr - start..], outbuf.Length - outptr))
    {
      ghost var rest, room := s[inptr - start..], outbuf.Length - outptr;
      ToStep(all, outbuf[..outptr], inptr - start, rest, room);
      if outptr >= outbuf.Length { return Full, inptr, outptr; }
      ghost var before := outbuf[..outptr];
      assert rest[0] == input[inptr];
      var ch := input[inptr];
      var status, used, next := ToBody(ch, outbuf, outptr);
      if !used {
        assert outbuf[..next] == before;
        return status, inptr, next;
      }
      assert outbuf[..next] == before + outbuf[outptr..next];
      inptr, outptr := inptr + 1, next;
      assert rest[1..] == s[inptr - start..];
    }
    ToStep(all, outbuf[..outptr], inptr - start, s[inptr - start..], outbuf.Length - outptr);
    result := Empty;
  }

  // all is what was done, and then rest.
  predicate Joined<T(==)>(all: Conversion<T>, written: seq<T>, used: nat, rest: Conversion<T>) {
    all == Conversion(written + rest.written, used + rest.used, rest.status)
  }

  lemma ToStart(s: seq<Ucs>, room: nat)
    ensures Joined(To(s, room), [], 0, To(s[0..], room))
  {
    assert s[0..] == s && [] + To(s, room).written == To(s, room).written;
  }

  lemma ToStep(all: Conversion<Byte>, written: seq<Byte>, used: nat, cps: seq<Ucs>, room: nat)
    requires Joined(all, written, used, To(cps, room))
    ensures cps == [] ==> all == Conversion(written, used, Empty)
    ensures cps != [] && room == 0 ==> all == Conversion(written, used, Full)
    ensures cps != [] && room > 0 && Encodable(cps[0]) ==>
              if |Unit(cps[0])| > room then all == Conversion(written, used, Full)
              else Joined(all, written + Unit(cps[0]), used + 1, To(cps[1..], room - |Unit(cps[0])|))
    ensures cps != [] && room > 0 && Tag(cps[0]) ==>
              !Encodable(cps[0]) && Joined(all, written + [], used + 1, To(cps[1..], room))
    ensures cps != [] && room > 0 && !Encodable(cps[0]) && !Tag(cps[0]) ==> all == Conversion(written, used, Illegal)
  {
    if cps != [] && Tag(cps[0]) { TagHasNoCell(cps[0]); }
    hide Encodable, Unit, Tag;
    assert written + [] == written;
    if cps != [] && room > 0 && Encodable(cps[0]) && |Unit(cps[0])| <= room {
      AppendAssoc(written, Unit(cps[0]), To(cps[1..], room - |Unit(cps[0])|).written);
    }
  }

  // The decoder; room for output is counted in characters.
  method FromLoop(input: array<Byte>, outbuf: array<Ucs>)
    returns (result: Status, inptr: nat, outptr: nat)
    modifies outbuf
    ensures inptr <= input.Length && outptr <= outbuf.Length
    ensures From(input[..], outbuf.Length) == Conversion(outbuf[..outptr], inptr, result)
  {
    hide From, Char;
    inptr, outptr := 0, 0;
    ghost var s := input[..];
    ghost var all := From(s, outbuf.Length);
    FromStart(s, outbuf.Length);
    while inptr < input.Length
      invariant 0 <= inptr <= input.Length && 0 <= outptr <= outbuf.Length
      invariant Joined(all, outbuf[..outptr], inptr, From(s[inptr..], outbuf.Length - outptr))
    {
      ghost var rest := s[inptr..];
      FromStep(all, outbuf[..outptr], inptr, rest, outbuf.Length - outptr);
      if outptr >= outbuf.Length { return Full, inptr, outptr; }
      assert rest[0] == input[inptr];
      var b, n, second := input[inptr], 1, 0;
      if Composed(b) {
        if inptr + 1 >= input.Length { return Incomplete, inptr, outptr; }
        n, second := 2, input[inptr + 1];
        assert rest[1] == second;
      }
      var ch := Char(b, second);
      if ch.None? { return Illegal, inptr, outptr; }
      ghost var before := outbuf[..outptr];
      outbuf[outptr] := ch.value;
      outptr := outptr + 1;
      assert outbuf[..outptr] == before + [ch.value];
      inptr := inptr + n;
      assert rest[n..] == s[inptr..];
    }
    FromStep(all, outbuf[..outptr], inptr, s[inptr..], outbuf.Length - outptr);
    result := Empty;
  }

  lemma FromStart(s: seq<Byte>, room: nat)
    ensures Joined(From(s, room), [], 0, From(s[0..], room))
  {
    assert s[0..] == s && [] + From(s, room).written == From(s, room).written;
  }

  lemma FromStep(all: Conversion<Ucs>, written: seq<Ucs>, used: nat, b: seq<Byte>, room: nat)
    requires Joined(all, written, used, From(b, room))
    ensures b == [] ==> all == Conversion(written, used, Empty)
    ensures b != [] && room == 0 ==> all == Conversion(written, used, Full)
    ensures b != [] && room > 0 && Composed(b[0]) && |b| < 2 ==> all == Conversion(written, used, Incomplete)
    ensures b != [] && room > 0 && (Composed(b[0]) ==> |b| >= 2) ==>
              var n := if Composed(b[0]) then 2 else 1;
              match Char(b[0], if n == 2 then b[1] else 0)
              case None => all == Conversion(written, used, Illegal)
              case Some(ch) => Joined(all, written + [ch], used + n, From(b[n..], room - 1))
  {
    hide Char;
    assert written + [] == written;
    if b != [] && room > 0 && (Composed(b[0]) ==> |b| >= 2) {
      var n := if Composed(b[0]) then 2 else 1;
      match Char(b[0], if n == 2 then b[1] else 0)
      case None =>
      case Some(ch) => AppendAssoc(written, [ch], From(b[n..], room - 1).written);
    }
  }

  // ----- Whole texts -----

  // A text with nothing illegal in it.
  predicate Clean(cps: seq<Ucs>) { forall ch <- cps :: Encodable(ch) || Tag(ch) }

  function EncodeAll(cps: seq<Ucs>): seq<Byte>
    requires Clean(cps)
  {
    if cps == [] then []
    else
      assert cps[0] in cps && forall ch <- cps[1..] :: ch in cps;
      (if Encodable(cps[0]) then Unit(cps[0]) else []) + EncodeAll(cps[1..])
  }

  function WithoutTags(cps: seq<Ucs>): seq<Ucs> {
    if cps == [] then [] else (if Tag(cps[0]) then [] else [cps[0]]) + WithoutTags(cps[1..])
  }

  lemma CleanTail(cps: seq<Ucs>)
    requires Clean(cps) && cps != []
    ensures Clean(cps[1..]) && (Encodable(cps[0]) || Tag(cps[0]))
    ensures EncodeAll(cps) == (if Encodable(cps[0]) then Unit(cps[0]) else []) + EncodeAll(cps[1..])
  {
    hide Encodable, Tag, Unit;
    assert cps[0] in cps && forall ch <- cps[1..] :: ch in cps;
  }

  lemma FromUnit(ch: Ucs, rest: seq<Byte>, room: nat)
    requires Encodable(ch) && room > 0
    ensures var r := From(Unit(ch) + rest, room);
            var more := From(rest, room - 1);
            r == Conversion([ch] + more.written, |Unit(ch)| + more.used, more.status)
  {
    CharOfCell(ch);
    var b := Unit(ch) + rest;
    assert b[|Unit(ch)|..] == rest;
    assert b[0] == Unit(ch)[0] && (|Unit(ch)| == 2 ==> b[1] == Unit(ch)[1]);
    hide Cell, Char, Encodable;
  }

  lemma NothingLeft()
    ensures Clean([]) && EncodeAll([]) == [] && WithoutTags([]) == []
    ensures forall room :: From([], room) == Conversion([], 0, Empty)
  {
  }

  lemma TagsStep(cps: seq<Ucs>)
    requires cps != []
    ensures WithoutTags(cps) == (if Tag(cps[0]) then [] else [cps[0]]) + WithoutTags(cps[1..])
  {
  }

  // Decoding undoes encoding, up to the tags that the encoder drops.
  lemma {:induction false} DecodeOfEncode(cps: seq<Ucs>, room: nat)
    requires Clean(cps) && room >= |cps|
    ensures From(EncodeAll(cps), room) == Conversion(WithoutTags(cps), |EncodeAll(cps)|, Empty)
    decreases |cps|
  {
    hide *;
    NothingLeft();
    if cps != [] {
      var ch := cps[0];
      if Tag(ch) { TagHasNoCell(ch); }
      CleanTail(cps);
      TagsStep(cps);
      var rest := EncodeAll(cps[1..]);
      if Encodable(ch) {
        FromUnit(ch, rest, room);
        DecodeOfEncode(cps[1..], room - 1);
        assert EncodeAll(cps) == Unit(ch) + rest;
      } else {
        DecodeOfEncode(cps[1..], room);
        assert [] + rest == rest && [] + WithoutTags(cps[1..]) == WithoutTags(cps[1..]);
        assert EncodeAll(cps) == rest;
      }
    }
  }

  lemma CleanCons(ch: Ucs, rest: seq<Ucs>)
    requires Encodable(ch) && Clean(rest)
    ensures Clean([ch] + rest) && EncodeAll([ch] + rest) == Unit(ch) + EncodeAll(rest)
  {
    hide Encodable, Tag, Unit;
    var r := [ch] + rest;
    assert r[0] == ch && r[1..] == rest;
    assert forall c <- r :: c == ch || c in rest;
    CleanTail(r);
  }

  // The first turn of the decoder's loop.
  lemma FromFirst(b: seq<Byte>, room: nat)
    requires From(b, room).status == Empty
    ensures From([], room) == Conversion([], 0, Empty)
    ensures b != [] ==>
              && (Composed(b[0]) ==> |b| >= 2) && room > 0
              && var n := if Composed(b[0]) then 2 else 1;
                 var second := if n == 2 then b[1] else 0;
                 var rest := From(b[n..], room - 1);
                 && Char(b[0], second).Some? && rest.status == Empty
                 && From(b, room) == Conversion([Char(b[0], second).value] + rest.written, n + rest.used, Empty)
                 && b == (if n == 2 then [b[0], b[1]] else [b[0]]) + b[n..]
  {
    hide Char;
  }

  // A byte string that is decoded to its end is the one its text is encoded as.
  lemma {:induction false} EncodeOfDecode(b: seq<Byte>, room: nat)
    requires From(b, room).status == Empty
    ensures var r := From(b, room);
            r.used == |b| && Clean(r.written) && EncodeAll(r.written) == b
    decreases |b|
  {
    hide *;
    FromFirst(b, room);
    if b == [] {
      NothingLeft();
    } else {
      var n := if Composed(b[0]) then 2 else 1;
      var second := if n == 2 then b[1] else 0;
      UnitOfChar(b[0], second);
      EncodeOfDecode(b[n..], room - 1);
      CleanCons(Char(b[0], second).value, From(b[n..], room - 1).written);
    }
  }

  lemma UnitOfChar(b0: Byte, b1: Byte)
    requires Char(b0, b1).Some? && (!Composed(b0) ==> b1 == 0)
    ensures Encodable(Char(b0, b1).value)
    ensures Unit(Char(b0, b1).value) == if Composed(b0) then [b0, b1] else [b0]
  {
    if Composed(b0) { CellOfComposed(b0, b1); } else { CellOfSingle(b0); }
    var ch := Char(b0, b1).value;
    if Composed(b0) { assert b1 >= 0x20; }
    hide Cell, Char;
    assert (b0 as int * 256 + b1) / 256 == b0 && (b0 as int * 256 + b1) % 256 == b1;
  }

  // ----- A series of output buffers -----

  // What is left of a text after one call a buffer, and what was written.
  function Series(cps: seq<Ucs>, rooms: seq<nat>): (r: (seq<Byte>, seq<Ucs>))
    decreases |rooms|
  {
    if rooms == [] then ([], cps)
    else
      var first := To(cps, rooms[0]);
      var (more, left) := Series(cps[first.used..], rooms[1..]);
      (first.written + more, left)
  }

  // The first turn of the loop.
  lemma ToFirst(cps: seq<Ucs>, room: nat)
    requires Clean(cps)
    ensures cps == [] ==> To(cps, room) == Conversion([], 0, Empty)
    ensures cps != [] && (room == 0 || (Encodable(cps[0]) && |Unit(cps[0])| > room))
        ==> To(cps, room) == Conversion([], 0, Full)
    ensures cps != [] && room > 0 && (Encodable(cps[0]) ==> |Unit(cps[0])| <= room) ==>
              var unit := if Encodable(cps[0]) then Unit(cps[0]) else [];
              var rest := To(cps[1..], room - |unit|);
              && To(cps, room) == Conversion(unit + rest.written, 1 + rest.used, rest.status)
              && cps[1 + rest.used..] == cps[1..][rest.used..]
  {
    if cps != [] { assert cps[0] in cps; }
    hide Encodable, Unit, Tag;
  }

  lemma {:induction false} OneBuffer(cps: seq<Ucs>, room: nat)
    requires Clean(cps)
    ensures var r := To(cps, room);
            && Clean(cps[r.used..]) && r.status != Illegal
            && r.written + EncodeAll(cps[r.used..]) == EncodeAll(cps)
            && (r.status == Empty <==> r.used == |cps|)
            && (room >= 2 && cps != [] ==> r.used > 0)
            && (room >= |EncodeAll(cps)| + 1 ==> r.used == |cps|)
    decreases |cps|
  {
    hide *;
    ToFirst(cps, room);
    if cps != [] { CleanTail(cps); }
    if cps != [] && room > 0 && (Encodable(cps[0]) ==> |Unit(cps[0])| <= room) {
      var unit := if Encodable(cps[0]) then Unit(cps[0]) else [];
      OneBuffer(cps[1..], room - |unit|);
      var rest := To(cps[1..], room - |unit|);
      AppendAssoc(unit, rest.written, EncodeAll(cps[1..][rest.used..]));
    } else {
      assert cps[0..] == cps;
      assert [] + EncodeAll(cps) == EncodeAll(cps);
    }
  }

  // Whatever the buffers, nothing is lost, repeated or torn between them; with
  // room for two bytes in each, as many buffers as characters are enough.
  lemma {:induction false} SeriesIsOneShot(cps: seq<Ucs>, rooms: seq<nat>)
    requires Clean(cps)
    ensures var (written, left) := Series(cps, rooms);
            && Clean(left) && written + EncodeAll(left) == EncodeAll(cps)
            && ((forall r <- rooms :: r >= 2) && |rooms| >= |cps| ==> left == [] && written == EncodeAll(cps))
    decreases |rooms|
  {
    if rooms != [] {
      hide To, EncodeAll, Clean;
      var first := To(cps, rooms[0]);
      OneBuffer(cps, rooms[0]);
      SeriesIsOneShot(cps[first.used..], rooms[1..]);
      var (more, left) := Series(cps[first.used..], rooms[1..]);
      AppendAssoc(first.written, more, EncodeAll(left));
      if (forall r <- rooms :: r >= 2) && |rooms| >= |cps| {
        assert rooms[0] in rooms && forall r <- rooms[1..] :: r in rooms;
      }
    }
    NothingLeft();
  }

  // With less room a text can be stuck for good.
  lemma OneByteIsStuck(cps: seq<Ucs>)
    requires Clean(cps) && cps != []
    ensures To(cps, 1).used == 0 <==> Encodable(cps[0]) && |Unit(cps[0])| == 2
  {
    CleanTail(cps);
    hide Encodable, Unit;
  }
}
