// The format that the reader of contrib/xc3028-firmware/firmware-tool.c accepts,
// with the frequency field of HAS_IF descriptions, which the writer leaves out.

module FirmwareFormat {
  import opened Base
  import opened Bytes
  import opened Firmware

  // type, id, int_freq if there is one, size and data.
  function LaidOut(d: Description): (b: seq<Byte>)
    ensures |b| == (if HasIf(d.kind) then 18 else 16) + |d.data|
  {
    Le(d.kind, 4) + Le(d.id, 8) + (if HasIf(d.kind) then Le(d.intFreq, 2) else []) + Le(|d.data|, 4) + d.data
  }

  function AllLaidOut(descs: seq<Description>): seq<Byte> {
    if descs == [] then [] else LaidOut(descs[0]) + AllLaidOut(descs[1..])
  }

  // name, version, nr_desc and the descriptions.
  function ImageLaidOut(f: Image): seq<Byte> {
    f.name + Le(f.version, 2) + Le(|f.descs|, 2) + AllLaidOut(f.descs)
  }

  // ----- Numbers -----

  lemma TwoLittleEndian(a: Byte, b: Byte)
    ensures FromLe([a, b]) == a + 0x100 * b
  {
    assert [a, b][1..] == [b] && [b][1..] == [] && FromLe([b]) == b as nat;
  }

  lemma FourLittleEndian(a: Byte, b: Byte, c: Byte, d: Byte)
    ensures FromLe([a, b, c, d]) == a + 0x100 * b + 0x1_0000 * c + 0x100_0000 * d
  {
    assert [a, b, c, d][1..] == [b, c, d] && [b, c, d][1..] == [c, d];
    TwoLittleEndian(c, d);
  }

  // HAS_IF is bit 6 of the last byte of the type.
  lemma HasIfBit(a: Byte, b: Byte, c: Byte, d: Byte)
    ensures HasIf(FromLe([a, b, c, d])) <==> d / 64 % 2 == 1
  {
    FourLittleEndian(a, b, c, d);
    var low := a + 0x100 * b + 0x1_0000 * c + 0x100_0000 * (d % 64);
    assert FromLe([a, b, c, d]) == low + 0x4000_0000 * (d / 64) && low < 0x4000_0000;
  }

  // ----- The reader accepts exactly this -----

  lemma LaidOutIsRead(before: seq<Byte>, d: Description, after: seq<Byte>)
    requires ValidDescription(d)
    ensures ReadDescription(before + LaidOut(d) + after, |before|) == Done(d, |before| + |LaidOut(d)|)
  {
    var data := before + LaidOut(d) + after;
    var p := |before|;
    var q := if HasIf(d.kind) then p + 14 else p + 12;
    FromLeOfLe(d.kind, 4);
    FromLeOfLe(d.id, 8);
    FromLeOfLe(d.intFreq, 2);
    FromLeOfLe(|d.data|, 4);
    hide Le, FromLe, HasIf;
    var freq := if HasIf(d.kind) then Le(d.intFreq, 2) else [];
    FieldsAt(before, Le(d.kind, 4), Le(d.id, 8), freq, Le(|d.data|, 4), d.data, after);
    hide LaidOut;
  }

  lemma FieldsAt(before: seq<Byte>, a: seq<Byte>, b: seq<Byte>, c: seq<Byte>, e: seq<Byte>, rest: seq<Byte>,
                 after: seq<Byte>)
    requires |a| == 4 && |b| == 8 && |e| == 4
    ensures var data, p := before + (a + b + c + e + rest) + after, |before|;
            var q := p + 12 + |c|;
            && data[p..p + 4] == a && data[p + 4..p + 12] == b && data[p + 12..q] == c
            && data[q..q + 4] == e && data[q + 4..q + 4 + |rest|] == rest
  {
    var data, p := before + (a + b + c + e + rest) + after, |before|;
    var q := p + 12 + |c|;
    AppendAssoc(a + b + c, e, rest);
    AppendAssoc(a + b, c, e + rest);
    AppendAssoc(a, b, c + (e + rest));
    var tail := c + (e + rest);
    assert data[p..] == a + (b + tail) + after;
    assert data[p + 4..] == b + tail + after;
    assert data[p + 12..] == tail + after;
    assert data[q..] == e + rest + after;
    assert data[q + 4..] == rest + after;
  }

  lemma ReadIsLaidOut(data: seq<Byte>, p: nat)
    requires p <= |data| && ReadDescription(data, p).Done?
    ensures var r := ReadDescription(data, p);
            ValidDescription(r.value) && LaidOut(r.value) == data[p..r.next]
  {
    var r := ReadDescription(data, p);
    var q := if HasIf(r.value.kind) then p + 14 else p + 12;
    ReadFields(data, p, q);
    hide Le, FromLe, Pow256, HasIf;
    Cuts(data, p, q, r.next);
  }

  lemma ReadFields(data: seq<Byte>, p: nat, q: nat)
    requires p + 12 <= q <= p + 14 <= q + 4 <= |data|
    ensures Le(FromLe(data[p..p + 4]), 4) == data[p..p + 4] && FromLe(data[p..p + 4]) < Pow256(4)
    ensures Le(FromLe(data[p + 4..p + 12]), 8) == data[p + 4..p + 12] && FromLe(data[p + 4..p + 12]) < Pow256(8)
    ensures Le(FromLe(data[p + 12..p + 14]), 2) == data[p + 12..p + 14] && FromLe(data[p + 12..p + 14]) < Pow256(2)
    ensures Le(FromLe(data[q..q + 4]), 4) == data[q..q + 4] && FromLe(data[q..q + 4]) < Pow256(4)
    ensures Pow256(2) == 0x1_0000
  {
    hide *;
    LeOfFromLe(data[p..p + 4]);
    LeOfFromLe(data[p + 4..p + 12]);
    LeOfFromLe(data[p + 12..p + 14]);
    LeOfFromLe(data[q..q + 4]);
    PowTwo();
  }

  lemma Cuts(data: seq<Byte>, p: nat, q: nat, end: nat)
    requires p + 12 <= q && q + 4 <= end <= |data|
    ensures data[p..end]
         == data[p..p + 4] + data[p + 4..p + 12] + data[p + 12..q] + data[q..q + 4] + data[q + 4..end]
    ensures data[p..end]
         == data[p..p + 4] + data[p + 4..p + 12] + [] + data[p + 12..p + 16] + data[p + 16..end]
  {
    assert data[p..p + 4] + data[p + 4..p + 12] == data[p..p + 12];
    assert data[p..p + 12] + data[p + 12..q] == data[p..q];
    assert data[p..q] + data[q..q + 4] == data[p..q + 4];
    assert data[p..p + 12] + [] == data[p..p + 12];
    assert data[p..p + 12] + data[p + 12..p + 16] == data[p..p + 16];
  }

  // A description is read if and only if it is laid out there.
  lemma ReadDescriptionIff(data: seq<Byte>, p: nat, d: Description)
    requires p <= |data|
    ensures ReadDescription(data, p) == Done(d, p + |LaidOut(d)|)
       <==> ValidDescription(d) && LaidOut(d) <= data[p..]
    ensures ReadDescription(data, p).Done? ==>
              ReadDescription(data, p).next == p + |LaidOut(ReadDescription(data, p).value)|
  {
    hide *;
    var r := ReadDescription(data, p);
    if r.Done? {
      ReadIsLaidOut(data, p);
      CutIsPrefix(data, p, r.next);
    }
    if ValidDescription(d) && LaidOut(d) <= data[p..] {
      LaidOutIsRead(data[..p], d, data[p + |LaidOut(d)|..]);
      PrefixIsPart(data, p, LaidOut(d));
    }
  }

  lemma CutIsPrefix(data: seq<Byte>, p: nat, end: nat)
    requires p <= end <= |data|
    ensures data[p..end] <= data[p..] && |data[p..end]| == end - p
  {
  }

  lemma PrefixIsPart(data: seq<Byte>, p: nat, a: seq<Byte>)
    requires p <= |data| && a <= data[p..]
    ensures p + |a| <= |data| && data == data[..p] + a + data[p + |a|..]
  {
    assert data[p..][..|a|] == a;
  }

  lemma {:induction false} AllReadIff(data: seq<Byte>, p: nat, descs: seq<Description>)
    requires p <= |data|
    ensures ReadDescriptions(data, p, |descs|) == Done(descs, p + |AllLaidOut(descs)|)
       <==> (forall d <- descs :: ValidDescription(d)) && AllLaidOut(descs) <= data[p..]
    decreases |descs|
  {
    hide *;
    if descs == [] {
      NothingLaidOut();
      ReadNone(data, p);
    } else {
      var d, rest := descs[0], descs[1..];
      assert descs == [d] + rest;
      FirstLaidOut(descs);
      ReadDescriptionIff(data, p, d);
      var n := |LaidOut(d)|;
      LaidOutPrefix(LaidOut(d), AllLaidOut(rest), data, p);
      if ReadDescription(data, p).Done? { ReadOneMore(data, p, |rest|); } else { ReadNoMore(data, p, |descs|); }
      if ReadDescription(data, p) == Done(d, p + n) {
        AllReadIff(data, p + n, rest);
      }
      assert (forall e <- descs :: ValidDescription(e))
         <==> ValidDescription(d) && forall e <- rest :: ValidDescription(e) by { Members(d, rest); }
    }
  }

  lemma Members(d: Description, rest: seq<Description>)
    ensures (forall e <- [d] + rest :: ValidDescription(e))
       <==> ValidDescription(d) && forall e <- rest :: ValidDescription(e)
  {
    hide ValidDescription;
    assert forall e :: e in [d] + rest <==> e == d || e in rest;
  }

  lemma NothingLaidOut()
    ensures AllLaidOut([]) == []
  {
  }

  lemma FirstLaidOut(descs: seq<Description>)
    requires descs != []
    ensures AllLaidOut(descs) == LaidOut(descs[0]) + AllLaidOut(descs[1..])
  {
  }

  lemma LaidOutPrefix(a: seq<Byte>, b: seq<Byte>, data: seq<Byte>, p: nat)
    requires p <= |data|
    ensures a + b <= data[p..] <==> a <= data[p..] && p + |a| <= |data| && b <= data[p + |a|..]
  {
    if a <= data[p..] && b <= data[p + |a|..] {
      assert data[p..] == a + data[p + |a|..];
      assert data[p..] == a + b + data[p + |a|..][|b|..];
    }
    if a + b <= data[p..] {
      assert data[p..] == a + b + data[p..][|a + b|..];
      assert data[p + |a|..] == data[p..][|a|..] == b + data[p..][|a + b|..];
    }
  }

  lemma ReadNoMore(data: seq<Byte>, p: nat, n: nat)
    requires p <= |data| && n > 0 && !ReadDescription(data, p).Done?
    ensures !ReadDescriptions(data, p, n).Done?
  {
    hide ReadDescription;
  }

  lemma {:induction false} AllReadNext(data: seq<Byte>, p: nat, n: nat)
    requires p <= |data| && ReadDescriptions(data, p, n).Done?
    ensures var r := ReadDescriptions(data, p, n);
            r.next == p + |AllLaidOut(r.value)|
    decreases n
  {
    hide *;
    if n == 0 {
      ReadNone(data, p);
      NothingLaidOut();
    } else {
      ReadFirst(data, p, n);
      var d := ReadDescription(data, p);
      ReadDescriptionIff(data, p, d.value);
      ReadOneMore(data, p, n - 1);
      AllReadNext(data, d.next, n - 1);
      var r := ReadDescriptions(data, p, n);
      FirstLaidOut(r.value);
      assert r.value[1..] == ReadDescriptions(data, d.next, n - 1).value;
    }
  }

  lemma HeaderFields(data: seq<Byte>, f: Image)
    requires |data| >= 36
    ensures |f.name| == 32 && f.version < 0x1_0000 && |f.descs| < 0x1_0000
            && f.name + Le(f.version, 2) + Le(|f.descs|, 2) <= data
       <==> data[..32] == f.name && FromLe(data[32..34]) == f.version && FromLe(data[34..36]) == |f.descs|
  {
    var version, count := Le(f.version, 2), Le(|f.descs|, 2);
    PowTwo();
    LeOfFromLe(data[32..34]);
    LeOfFromLe(data[34..36]);
    if f.version < 0x1_0000 { FromLeOfLe(f.version, 2); }
    if |f.descs| < 0x1_0000 { FromLeOfLe(|f.descs|, 2); }
    hide Le, FromLe;
    if |f.name| == 32 { HeadIff(data, f.name, version, count); }
  }

  lemma HeadIff(data: seq<Byte>, a: seq<Byte>, b: seq<Byte>, c: seq<Byte>)
    requires |data| >= 36 && |a| == 32 && |b| == 2 && |c| == 2
    ensures a + b + c <= data <==> data[..32] == a && data[32..34] == b && data[34..36] == c
  {
    var head := a + b + c;
    assert data[..36] == data[..32] + data[32..34] + data[34..36];
    if head <= data {
      assert data[..36] == head;
      assert data[..32] == head[..32] && data[32..34] == head[32..34] && data[34..36] == head[34..36];
    }
  }

  // An image is accepted if and only if it is laid out so, with any frequencies,
  // and what is read is what was laid out.
  lemma ImageReadIff(data: seq<Byte>, f: Image)
    ensures ReadImage(data) == Done(f, |ImageLaidOut(f)|) <==> ValidImage(f) && ImageLaidOut(f) <= data
    ensures ReadImage(data).Done? ==> ReadImage(data).next == |ImageLaidOut(ReadImage(data).value)|
  {
    hide ReadDescriptions, AllLaidOut, ValidDescription, Le, FromLe, Pow256;
    PowTwo();
    if |data| >= 36 {
      var n := FromLe(data[34..36]);
      if ReadImage(data).Done? { AllReadNext(data, 36, n); }
      HeaderFields(data, f);
      AllReadIff(data, 36, f.descs);
      var head := f.name + Le(f.version, 2) + Le(|f.descs|, 2);
      if |head| == 36 {
        LaidOutPrefix(head, AllLaidOut(f.descs), data, 0);
        assert data[0..] == data;
      }
    } else if ImageLaidOut(f) <= data {
      assert |ImageLaidOut(f)| >= |f.name| + 4;
    }
  }

  // Why a description is not read: its fixed part is cut short, with HAS_IF its
  // size field is, or its data are.
  lemma DescriptionOutcome(data: seq<Byte>, p: nat)
    requires p <= |data|
    ensures var r := ReadDescription(data, p);
            if p + 16 > |data| then r == Invalid
            else
              var q := if data[p + 3] / 64 % 2 == 1 then p + 14 else p + 12;
              if q + 4 > |data| then r == PastEnd
              else
                var size := data[q] as nat + 0x100 * data[q + 1] as nat
                            + 0x1_0000 * data[q + 2] as nat + 0x100_0000 * data[q + 3] as nat;
                if q + 4 + size > |data| then r == Invalid
                else r.Done? && r.next == q + 4 + size && r.value.data == data[q + 4..r.next]
  {
    if p + 16 <= |data| {
      HasIfBit(data[p], data[p + 1], data[p + 2], data[p + 3]);
      assert data[p..p + 4] == [data[p], data[p + 1], data[p + 2], data[p + 3]];
      var q := if data[p + 3] / 64 % 2 == 1 then p + 14 else p + 12;
      if q + 4 <= |data| {
        FourLittleEndian(data[q], data[q + 1], data[q + 2], data[q + 3]);
        assert data[q..q + 4] == [data[q], data[q + 1], data[q + 2], data[q + 3]];
      }
      hide FromLe, HasIf;
    }
  }

  // The writer leaves out the frequency, and nothing else.
  lemma WrittenLacksFrequency(d: Description)
    ensures var b := DescriptionBytes(d);
            LaidOut(d) == b[..12] + (if HasIf(d.kind) then Le(d.intFreq, 2) else []) + b[12..]
  {
    hide HasIf, Le;
    var head, tail := Le(d.kind, 4) + Le(d.id, 8), Le(|d.data|, 4) + d.data;
    assert DescriptionBytes(d) == head + tail;
    if HasIf(d.kind) { AppendAssoc(head + Le(d.intFreq, 2), Le(|d.data|, 4), d.data); }
  }

  lemma {:induction false} WrittenIsLaidOut(descs: seq<Description>)
    requires NoIf(descs)
    ensures DescriptionsBytes(descs) == AllLaidOut(descs)
    decreases |descs|
  {
    hide HasIf, Le;
    if descs != [] {
      assert descs[0] in descs && forall d <- descs[1..] :: d in descs;
      WrittenIsLaidOut(descs[1..]);
      var d := descs[0];
      assert Le(d.kind, 4) + Le(d.id, 8) + [] == Le(d.kind, 4) + Le(d.id, 8);
    }
  }
}
