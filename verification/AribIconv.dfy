// Calls of the two converters: the loops of contrib/gconv/arib-std-b24.c as
// contrib/gconv/iconv runs them, and what the theorems about their specifications
// say of them.

module AribIconv {
  import opened Base
  import opened AribDecoder
  import opened AribCharConv
  import opened AribEncoder
  import opened AribSimulation
  import opened AribRoundTrip
  import opened AribTextRoundTrip
  import From = AribDecoderLoop
  import To = AribEncoderLoop

  lemma {:induction false} TurnsCount(prev: nat, cps: seq<Ucs>, jis: Jis)
    ensures var t := Turns(prev, cps, jis);
            |t.us| + (if t.prev == 0 then 0 else 1) <= |cps| + (if prev == 0 then 0 else 1)
    decreases |cps|
  {
    if cps != [] {
      hide Classify, Composed;
      if TakeTurn(prev, cps[0], jis).ok {
        TurnsCount(TakeTurn(prev, cps[0], jis).prev, cps[1..], jis);
      }
    }
  }

  lemma OneCallValid(cps: seq<Ucs>, jis: Jis)
    requires InRange(cps, jis)
    ensures AllValid(OneCall(cps, jis).us)
  {
    hide Turns, InRange, AllValid;
    TurnsValid(0, cps, jis);
  }

  // No more than seven bytes a code point are ever needed.
  lemma OutputBound(cps: seq<Ucs>, jis: Jis)
    requires InRange(cps, jis)
    ensures AllValid(OneCall(cps, jis).us)
    ensures |EmitAll(DEFAULT_SHADOW, OneCall(cps, jis).us).bytes| <= 7 * |cps|
  {
    hide Turns, InRange, AllValid, EmitAll;
    OneCallValid(cps, jis);
    TurnsCount(0, cps, jis);
    EmitAllBound(DEFAULT_SHADOW, OneCall(cps, jis).us);
  }

  // A conversion descriptor in the encoding direction.
  class Encoder {
    var statep: To.StateTo  // data->__statep
    const jis: Jis

    // Nothing but memset ever writes the stored state.
    ghost predicate Valid()
      reads this
    {
      statep == To.CLEARED
    }

    constructor (jis: Jis)
      ensures Valid() && this.jis == jis
    {
      statep, this.jis := To.CLEARED, jis;
    }

    // A call with input.  The loop works on a copy of the state; UPDATE_PARAMS,
    // which would store it, is empty for this direction.  So every call starts
    // from the default state.
    method Call(cps: seq<Ucs>, out: array<Byte>, start: nat) returns (status: To.Status, outptr: nat)
      requires Valid() && InRange(cps, jis) && start <= out.Length
      modifies out
      ensures AllValid(OneCall(cps, jis).us) && start <= out.Length
      ensures var c := OneCall(cps, jis);
              var e := EmitAll(DEFAULT_SHADOW, c.us);
              && (start + |e.bytes| > out.Length ==> status == To.FULL_OUTPUT)
              && (status == To.FULL_OUTPUT ==> start + |e.bytes| >= out.Length)
              && (status != To.FULL_OUTPUT ==>
                    && start <= outptr <= out.Length
                    && out[..outptr] == old(out[..start]) + e.bytes && (status == To.OK <==> c.ok))
    {
      hide Turns, EmitAll, InRange, TakeTurn, Emit, AllValid;
      OneCallValid(cps, jis);
      var st := new To.ToLoop(out, start, jis, statep);
      st.InitParams();
      status := st.Loop(cps);
      outptr := st.outptr;
    }

    // The flush, EMIT_SHIFT_TO_INIT: the stored state has nothing buffered.
    method Flush(out: array<Byte>, start: nat) returns (status: To.Status, outptr: nat)
      requires Valid() && start <= out.Length
      modifies this, out
      ensures Valid() && status == To.OK && outptr == start && out[..start] == old(out[..start])
    {
      hide Emit;
      var st := new To.ToLoop(out, start, jis, statep);
      status := st.OutBuffered();
      outptr := st.outptr;
      statep := To.CLEARED;
    }
  }

  // From UCS-4: a call, and the flush behind it.  A buffer of seven bytes a code
  // point, and one more, always suffices, and a longer one changes nothing.
  method Encode(cps: seq<Ucs>, jis: Jis) returns (bytes: seq<Byte>, ok: bool)
    requires InRange(cps, jis)
    ensures AllValid(OneCall(cps, jis).us)
    ensures ok == OneCall(cps, jis).ok
    ensures bytes == EmitAll(DEFAULT_SHADOW, OneCall(cps, jis).us).bytes
  {
    hide OneCall, EmitAll, AllValid, InRange;
    OutputBound(cps, jis);
    var buffer := new Byte[7 * |cps| + 1];
    var encoder := new Encoder(jis);
    var status, outptr := encoder.Call(cps, buffer, 0);
    assert buffer[..outptr] == EmitAll(DEFAULT_SHADOW, OneCall(cps, jis).us).bytes;
    var _, flushed := encoder.Flush(buffer, outptr);
    bytes := buffer[..flushed];
    ok := status == To.OK;
  }

  method DecodeBytes(bytes: seq<Byte>, jis: Jis) returns (cps: seq<Ucs>, ok: bool)
    ensures Inv(DEFAULT)
    ensures Decode(DEFAULT, bytes, jis).cps == cps && Decode(DEFAULT, bytes, jis).ok == ok
  {
    hide Decode, Step;
    var loop := new From.FromLoop(jis);
    var status, _ := loop.Loop(bytes);
    cps, ok := loop.out, status == From.OK;
  }

  // There and back: a text without NUL is unchanged exactly when it has no lossy
  // character, does not end in a base that waits, and no plane-1 character comes
  // while G2 holds plane 2.
  method ThereAndBack(cps: seq<Ucs>, jis: Jis) returns (text: seq<Ucs>, ok: bool)
    requires Consistent(cps, jis) && 0 !in cps && OneCall(cps, jis).ok
    ensures AllValid(OneCall(cps, jis).us)
    ensures ok && text == cps <==>
            && Lossless(cps, jis) && !EndsInBase(cps, jis)
            && !Clash(false, Glyphs(DEFAULT_SHADOW, OneCall(cps, jis).us))
  {
    hide *;
    ConsistentInRange(cps, jis);
    TextRoundTripIff(cps, jis);
    var bytes, _ := Encode(cps, jis);
    text, ok := DecodeBytes(bytes, jis);
  }

  // ----- Several calls -----

  lemma {:induction false} TurnsAppend(prev: nat, a: seq<Ucs>, b: seq<Ucs>, jis: Jis)
    requires Turns(prev, a, jis).ok
    ensures var x := Turns(prev, a, jis);
            var y := Turns(x.prev, b, jis);
            Turns(prev, a + b, jis) == Turn(x.us + y.us, y.prev, y.ok)
    decreases |a|
  {
    hide TakeTurn;
    if a == [] {
      assert a + b == b;
      assert [] + Turns(prev, b, jis).us == Turns(prev, b, jis).us;
    } else {
      ConsAppend(a, b);
      var t := TakeTurn(prev, a[0], jis);
      TurnsAppend(t.prev, a[1..], b, jis);
      AppendAssoc(t.us, Turns(t.prev, a[1..], jis).us, Turns(Turns(prev, a, jis).prev, b, jis).us);
    }
  }

  // Two calls emit what one call on the whole text emits, if the first leaves
  // nothing buffered and ends in the default state, as it does behind a line feed.
  lemma TwoCalls(a: seq<Ucs>, b: seq<Ucs>, jis: Jis)
    requires InRange(a + b, jis) && Turns(0, a, jis).ok && Turns(0, a, jis).prev == 0
    ensures AllValid(OneCall(a, jis).us) && AllValid(OneCall(b, jis).us) && AllValid(OneCall(a + b, jis).us)
    ensures var x, y := EmitAll(DEFAULT_SHADOW, OneCall(a, jis).us), EmitAll(DEFAULT_SHADOW, OneCall(b, jis).us);
            x.sh == DEFAULT_SHADOW ==> x.bytes + y.bytes == EmitAll(DEFAULT_SHADOW, OneCall(a + b, jis).us).bytes
  {
    hide Turns, EmitAll, AllValid, CodesInRange;
    assert InRange(a, jis) && InRange(b, jis) by {
      assert forall ch :: ch in a || ch in b ==> ch in a + b;
    }
    OneCallValid(a, jis);
    OneCallValid(b, jis);
    OneCallValid(a + b, jis);
    TurnsAppend(0, a, b, jis);
    EmitAllAppend(DEFAULT_SHADOW, OneCall(a, jis).us, OneCall(b, jis).us);
  }

  // A text that ends in a line feed is such a first part.
  lemma EndsInLineFeed(a: seq<Ucs>, jis: Jis)
    requires InRange(a + [LF], jis) && Turns(0, a, jis).ok
    ensures var t := Turns(0, a + [LF], jis);
            && t.ok && t.prev == 0 && AllValid(t.us)
            && EmitAll(DEFAULT_SHADOW, t.us).sh == DEFAULT_SHADOW
  {
    hide EmitAll, AllValid, CodesInRange, InRange, Buffered, ClassifyJis;
    TurnsAppend(0, a, [LF], jis);
    OneCallValid(a + [LF], jis);
    var x := Turns(0, a, jis);
    LineFeedTurn(x.prev, jis);
    var y := Turns(x.prev, [LF], jis);
    var before := y.us[..|y.us| - 1];
    assert x.us + y.us == (x.us + before) + [Ascii(LF)];
    AllValidAppend(x.us + before, [Ascii(LF)]);
    EmitAllAppend(DEFAULT_SHADOW, x.us + before, [Ascii(LF)]);
    LineFeedUnit(EmitAll(DEFAULT_SHADOW, x.us + before).sh);
  }

  lemma LineFeedTurn(prev: nat, jis: Jis)
    ensures var t := Turns(prev, [LF], jis);
            t.ok && t.prev == 0 && t.us == (if prev == 0 then [] else [Buffered(prev)]) + [Ascii(LF)]
  {
    assert [LF][1..] == [];
    assert Composed(prev, LF) == None;
    hide Buffered;
    var t := TakeTurn(prev, LF, jis);
    assert t.us + [] == t.us;
  }

  lemma LineFeedUnit(sh: Shadow)
    ensures AllValid([Ascii(LF)]) && EmitAll(sh, [Ascii(LF)]).sh == DEFAULT_SHADOW
  {
    assert [Ascii(LF)][1..] == [];
  }
}
