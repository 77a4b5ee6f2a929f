// contrib/xc3028-firmware/firmware-tool.c: the firmware container, its reader
// and writer, and the insertion and deletion of firmware descriptions.

module Firmware {
  import opened Base
  import opened Bytes

  const HEADER_LENGTH: nat := 36
  const DESC_HEADER_LENGTH: nat := 16
  const HAS_IF: nat := 0x40000000

  datatype Description = Description(kind: nat, id: nat, intFreq: nat, data: seq<Byte>)

  datatype Image = Image(name: seq<Byte>, version: nat, descs: seq<Description>)

  predicate HasIf(kind: nat) { kind / HAS_IF % 2 == 1 }

  // The widths of the fields; a description without HAS_IF has no frequency,
  // whose field is then 0 here.
  predicate ValidDescription(d: Description) {
    && d.kind < Pow256(4) && d.id < Pow256(8) && d.intFreq < Pow256(2) && |d.data| < Pow256(4)
    && (!HasIf(d.kind) ==> d.intFreq == 0)
  }

  predicate ValidImage(f: Image) {
    && |f.name| == 32 && f.version < Pow256(2) && |f.descs| < Pow256(2)
    && forall d <- f.descs :: ValidDescription(d)
  }

  predicate NoIf(descs: seq<Description>) { forall d <- descs :: !HasIf(d.kind) }

  // ----- The format -----

  function DescriptionBytes(d: Description): (b: seq<Byte>)
    ensures |b| == DESC_HEADER_LENGTH + |d.data|
  {
    Le(d.kind, 4) + Le(d.id, 8) + Le(|d.data|, 4) + d.data
  }

  function DescriptionsBytes(descs: seq<Description>): seq<Byte> {
    if descs == [] then [] else DescriptionBytes(descs[0]) + DescriptionsBytes(descs[1..])
  }

  function ImageBytes(f: Image): seq<Byte>
    requires |f.name| >= 32
  {
    f.name[..32] + Le(f.version, 2) + Le(|f.descs|, 2) + DescriptionsBytes(f.descs)
  }

  // The outcomes of reading: the second is the error return, the third a read
  // of a size field that lies, in part, behind the end of the data.
  datatype Reading<T> = Done(value: T, next: nat) | Invalid | PastEnd

  function ReadDescription(data: seq<Byte>, p: nat): (r: Reading<Description>)
    requires p <= |data|
    ensures r.Done? ==> p < r.next <= |data|
  {
    if p + DESC_HEADER_LENGTH > |data| then Invalid
    else
      var kind := FromLe(data[p..p + 4]);
      var id := FromLe(data[p + 4..p + 12]);
      var q := if HasIf(kind) then p + 14 else p + 12;
      if q + 4 > |data| then PastEnd
      else
        var freq := if HasIf(kind) then FromLe(data[p + 12..p + 14]) else 0;
        var size := FromLe(data[q..q + 4]);
        if q + 4 + size > |data| then Invalid
        else Done(Description(kind, id, freq, data[q + 4..q + 4 + size]), q + 4 + size)
  }

  function ReadDescriptions(data: seq<Byte>, p: nat, n: nat): (r: Reading<seq<Description>>)
    requires p <= |data|
    ensures r.Done? ==> p <= r.next <= |data| && |r.value| == n
    decreases n
  {
    if n == 0 then Done([], p)
    else
      match ReadDescription(data, p)
      case Invalid => Invalid
      case PastEnd => PastEnd
      case Done(d, next) =>
        match ReadDescriptions(data, next, n - 1)
        case Invalid => Invalid
        case PastEnd => PastEnd
        case Done(rest, end) => Done([d] + rest, end)
  }

  function ReadImage(data: seq<Byte>): (r: Reading<Image>)
    ensures r.Done? ==> r.next <= |data|
  {
    if |data| < HEADER_LENGTH then Invalid
    else
      match ReadDescriptions(data, HEADER_LENGTH, FromLe(data[34..36]))
      case Invalid => Invalid
      case PastEnd => PastEnd
      case Done(descs, end) => Done(Image(data[..32], FromLe(data[32..34]), descs), end)
  }

  // ----- Round trips -----

  lemma ReadDescriptionBack(before: seq<Byte>, d: Description, after: seq<Byte>)
    requires ValidDescription(d) && !HasIf(d.kind)
    ensures ReadDescription(before + DescriptionBytes(d) + after, |before|)
         == Done(d, |before| + |DescriptionBytes(d)|)
  {
    var data := before + DescriptionBytes(d) + after;
    var p := |before|;
    hide Le, FromLe;
    assert data[p..p + 4] == Le(d.kind, 4);
    assert data[p + 4..p + 12] == Le(d.id, 8);
    assert data[p + 12..p + 16] == Le(|d.data|, 4);
    assert data[p + 16..p + 16 + |d.data|] == d.data;
    FromLeOfLe(d.kind, 4);
    FromLeOfLe(d.id, 8);
    FromLeOfLe(|d.data|, 4);
  }

  lemma {:induction false} ReadDescriptionsBack(before: seq<Byte>, descs: seq<Description>, after: seq<Byte>)
    requires NoIf(descs) && forall d <- descs :: ValidDescription(d)
    ensures ReadDescriptions(before + DescriptionsBytes(descs) + after, |before|, |descs|)
         == Done(descs, |before| + |DescriptionsBytes(descs)|)
    decreases |descs|
  {
    hide *;
    if descs == [] {
      NoDescriptions(descs);
      ReadNone(before + DescriptionsBytes(descs) + after, |before|);
    } else {
      var d, rest := descs[0], descs[1..];
      FirstAndRest(descs);
      var b, c := DescriptionBytes(d), DescriptionsBytes(rest);
      Regroup(before, b, c, after);
      ReadDescriptionBack(before, d, c + after);
      ReadDescriptionsBack(before + b, rest, after);
      ReadOneMore(before + (b + c) + after, |before|, |rest|);
    }
  }

  lemma FirstAndRest(descs: seq<Description>)
    requires descs != [] && NoIf(descs) && forall d <- descs :: ValidDescription(d)
    ensures !HasIf(descs[0].kind) && ValidDescription(descs[0])
    ensures NoIf(descs[1..]) && forall d <- descs[1..] :: ValidDescription(d)
    ensures [descs[0]] + descs[1..] == descs
    ensures DescriptionsBytes(descs) == DescriptionBytes(descs[0]) + DescriptionsBytes(descs[1..])
  {
    assert forall e <- descs[1..] :: e in descs;
  }

  lemma ReadNone(data: seq<Byte>, p: nat)
    requires p <= |data|
    ensures ReadDescriptions(data, p, 0) == Done([], p)
  {
  }

  lemma ReadOneMore(data: seq<Byte>, p: nat, n: nat)
    requires p <= |data| && ReadDescription(data, p).Done?
    ensures var d := ReadDescription(data, p);
            var rest := ReadDescriptions(data, d.next, n);
            var all := ReadDescriptions(data, p, n + 1);
            && (rest.Done? <==> all.Done?)
            && (all.Done? ==> all == Done([d.value] + rest.value, rest.next))
  {
    hide ReadDescription;
  }

  lemma Regroup<T>(a: seq<T>, b: seq<T>, c: seq<T>, d: seq<T>)
    ensures a + (b + c) + d == a + b + (c + d) == (a + b) + c + d
  {
  }

  // Reading what was written gives the firmware back, with anything behind it
  // left over.
  lemma ReadOfWritten(f: Image, after: seq<Byte>)
    requires ValidImage(f) && NoIf(f.descs)
    ensures ReadImage(ImageBytes(f) + after) == Done(f, |ImageBytes(f)|)
  {
    var head := f.name[..32] + Le(f.version, 2) + Le(|f.descs|, 2);
    var data := ImageBytes(f) + after;
    ReadDescriptionsBack(head, f.descs, after);
    FromLeOfLe(f.version, 2);
    FromLeOfLe(|f.descs|, 2);
    hide Le, FromLe, ReadDescriptions, DescriptionsBytes;
    assert data == head + DescriptionsBytes(f.descs) + after;
    assert data[..32] == f.name;
    assert data[32..34] == Le(f.version, 2);
    assert data[34..36] == Le(|f.descs|, 2);
  }

  lemma WrittenDescription(data: seq<Byte>, p: nat)
    requires p <= |data| && ReadDescription(data, p).Done? && !HasIf(ReadDescription(data, p).value.kind)
    ensures var r := ReadDescription(data, p);
            ValidDescription(r.value) && DescriptionBytes(r.value) == data[p..r.next]
  {
    var r := ReadDescription(data, p);
    LeOfFromLe(data[p..p + 4]);
    LeOfFromLe(data[p + 4..p + 12]);
    LeOfFromLe(data[p + 12..p + 16]);
    PowTwo();
    hide Le, FromLe, Pow256;
    assert data[p..r.next] == data[p..p + 4] + data[p + 4..p + 12] + data[p + 12..p + 16] + data[p + 16..r.next];
  }

  lemma PowTwo()
    ensures Pow256(2) == 0x10000
  {
    assert Pow256(1) == 256;
  }

  lemma {:induction false} WrittenDescriptions(data: seq<Byte>, p: nat, n: nat)
    requires p <= |data| && ReadDescriptions(data, p, n).Done? && NoIf(ReadDescriptions(data, p, n).value)
    ensures var r := ReadDescriptions(data, p, n);
            (forall d <- r.value :: ValidDescription(d)) && DescriptionsBytes(r.value) == data[p..r.next]
    decreases n
  {
    hide *;
    var r := ReadDescriptions(data, p, n);
    if n == 0 {
      ReadNone(data, p);
      NoDescriptions(r.value);
    } else {
      ReadFirst(data, p, n);
      var d := ReadDescription(data, p);
      ReadOneMore(data, p, n - 1);
      var rest := ReadDescriptions(data, d.next, n - 1);
      assert r.value[0] == d.value && r.value[1..] == rest.value;
      NoIfParts(d.value, rest.value);
      WrittenDescription(data, p);
      WrittenDescriptions(data, d.next, n - 1);
      DescriptionsFrom(r.value, 0);
      assert r.value[0..] == r.value;
      assert data[p..r.next] == data[p..d.next] + data[d.next..r.next];
      assert forall e <- r.value :: e == d.value || e in rest.value;
    }
  }

  lemma ReadFirst(data: seq<Byte>, p: nat, n: nat)
    requires p <= |data| && n > 0 && ReadDescriptions(data, p, n).Done?
    ensures ReadDescription(data, p).Done?
  {
    hide ReadDescription;
  }

  lemma NoIfParts(d: Description, rest: seq<Description>)
    requires NoIf([d] + rest)
    ensures !HasIf(d.kind) && NoIf(rest)
  {
    assert d in [d] + rest;
    assert forall e <- rest :: e in [d] + rest;
  }

  // Writing what was read from an accepted image without HAS_IF reproduces the
  // bytes that were read.
  lemma WrittenOfRead(data: seq<Byte>)
    requires ReadImage(data).Done? && NoIf(ReadImage(data).value.descs)
    ensures var r := ReadImage(data);
            ValidImage(r.value) && ImageBytes(r.value) == data[..r.next]
  {
    var r := ReadImage(data);
    var n := FromLe(data[34..36]);
    WrittenDescriptions(data, HEADER_LENGTH, n);
    LeOfFromLe(data[32..34]);
    LeOfFromLe(data[34..36]);
    hide Le, FromLe, ReadDescriptions, DescriptionsBytes, Pow256, ValidDescription, NoIf;
    assert data[..r.next] == data[..32] + data[32..34] + data[34..36] + data[36..r.next];
  }

  // The bytes that the reader takes for some descriptions: two more than the
  // writer writes for each one that has HAS_IF.
  function ReadLength(descs: seq<Description>): nat {
    if descs == [] then 0
    else DESC_HEADER_LENGTH + (if HasIf(descs[0].kind) then 2 else 0) + |descs[0].data| + ReadLength(descs[1..])
  }

  lemma {:induction false} ReadTakes(data: seq<Byte>, p: nat, n: nat)
    requires p <= |data| && ReadDescriptions(data, p, n).Done?
    ensures var r := ReadDescriptions(data, p, n);
            r.next == p + ReadLength(r.value)
    decreases n
  {
    if n > 0 {
      hide FromLe, HasIf;
      var d := ReadDescription(data, p);
      ReadTakes(data, d.next, n - 1);
      assert ReadDescriptions(data, p, n).value[1..] == ReadDescriptions(data, d.next, n - 1).value;
    }
  }

  lemma {:induction false} ReadLengthIff(descs: seq<Description>)
    ensures |DescriptionsBytes(descs)| <= ReadLength(descs)
    ensures |DescriptionsBytes(descs)| == ReadLength(descs) <==> NoIf(descs)
    decreases |descs|
  {
    hide HasIf;
    if descs != [] {
      ReadLengthIff(descs[1..]);
      assert NoIf(descs) <==> !HasIf(descs[0].kind) && NoIf(descs[1..]) by {
        assert descs == [descs[0]] + descs[1..];
        assert forall e <- descs :: e == descs[0] || e in descs[1..];
      }
    }
  }

  // A firmware survives writing and reading exactly when none of its
  // descriptions has HAS_IF.
  lemma RoundTripIff(f: Image)
    requires ValidImage(f)
    ensures var r := ReadImage(ImageBytes(f));
            (r.Done? && r.value == f) <==> NoIf(f.descs)
  {
    hide ImageBytes, ReadImage, NoIf, ReadLength, DescriptionsBytes, ValidDescription;
    var data := ImageBytes(f);
    ImageLength(f);
    ReadLengthIff(f.descs);
    if NoIf(f.descs) {
      ReadOfWritten(f, []);
      assert data + [] == data;
    } else if ReadImage(data).Done? {
      ReadImageTakes(data);
    }
  }

  // An accepted image is reproduced by writing what was read exactly when none
  // of its descriptions has HAS_IF.
  lemma RewriteIff(data: seq<Byte>)
    requires ReadImage(data).Done?
    ensures var r := ReadImage(data);
            |r.value.name| >= 32 && (ImageBytes(r.value) == data[..r.next] <==> NoIf(r.value.descs))
  {
    hide *;
    var r := ReadImage(data);
    ReadImageTakes(data);
    ImageLength(r.value);
    ReadLengthIff(r.value.descs);
    if NoIf(r.value.descs) {
      WrittenOfRead(data);
    }
  }

  lemma ReadImageTakes(data: seq<Byte>)
    requires ReadImage(data).Done?
    ensures var r := ReadImage(data);
            |r.value.name| == 32 && r.next == HEADER_LENGTH + ReadLength(r.value.descs)
  {
    hide ReadDescriptions, ReadLength, FromLe;
    ReadTakes(data, HEADER_LENGTH, FromLe(data[34..36]));
  }

  lemma ImageLength(f: Image)
    requires |f.name| >= 32
    ensures |ImageBytes(f)| == HEADER_LENGTH + |DescriptionsBytes(f.descs)|
  {
    hide Le, DescriptionsBytes;
  }

  // A firmware with one empty HAS_IF description does not survive: its int_freq
  // is not written, and the reader misses it.
  lemma HasIfIsLost(f: Image)
    requires ValidImage(f) && |f.descs| == 1 && HasIf(f.descs[0].kind) && f.descs[0].data == []
    ensures ReadImage(ImageBytes(f)) == PastEnd
  {
    var d := f.descs[0];
    var data := ImageBytes(f);
    assert ValidDescription(d) by { assert d in f.descs; }
    FromLeOfLe(d.kind, 4);
    FromLeOfLe(1, 2);
    hide Le, FromLe, HasIf, ValidDescription;
    assert f.descs[1..] == [];
    assert DescriptionsBytes(f.descs) == DescriptionBytes(d) + [];
    assert data[34..36] == Le(1, 2);
    assert data[36..40] == Le(d.kind, 4);
  }

  // ----- The program's operations -----

  // struct firmware.  desc holds nr_desc descriptions; nr_desc is 16 bits wide.
  class FirmwareFile {
    var name: seq<Byte>
    var version: nat
    var desc: seq<Description>
    var nrDesc: nat

    ghost predicate Valid()
      reads this
    {
      |name| >= 32 && version < 0x10000 && nrDesc < 0x10000 && nrDesc <= |desc|
    }

    // What write_firmware sees.
    ghost function View(): Image
      requires Valid()
      reads this
    {
      Image(name[..32], version, desc[..nrDesc])
    }

    constructor ()
      ensures Valid() && View() == Image(Zeros(32), 0, [])
    {
      name, version, desc, nrDesc := Zeros(32), 0, [], 0;
    }

    // add_firmware_description: with 65535 descriptions the count wraps to 0.
    method Add(d: Description)
      requires Valid()
      modifies this
      ensures Valid()
      ensures View() == if old(nrDesc) < 0xffff then old(View()).(descs := old(View()).descs + [d])
                        else old(View()).(descs := [])
    {
      desc := desc[..nrDesc] + [d];
      nrDesc := (nrDesc + 1) % 0x10000;
    }

    // delete_firmware_description
    method Delete(i: nat)
      requires Valid()
      modifies this
      ensures Valid()
      ensures View() == if i < old(nrDesc)
                        then old(View()).(descs := old(View()).descs[..i] + old(View()).descs[i + 1..])
                        else old(View())
    {
      if nrDesc == 0 || i >= nrDesc { return; }
      desc := desc[..i] + desc[i + 1..nrDesc];
      nrDesc := nrDesc - 1;
    }

    // read_firmware, into this object; on an error the object is not used.
    method Read(data: array<Byte>) returns (r: Reading<Image>)
      modifies this
      ensures r == ReadImage(data[..])
      ensures r.Done? ==> Valid() && View() == r.value
    {
      hide FromLe, ReadDescription;
      var size := data.Length;
      if size < HEADER_LENGTH { return Invalid; }
      name := data[..32];
      var p := 32;
      version := FromLe(data[p..p + 2]);
      p := p + 2;
      nrDesc := FromLe(data[p..p + 2]);
      p := p + 2;
      TwoBytes(data[32..34]);
      TwoBytes(data[34..36]);
      desc := [];
      var i := 0;
      ghost var s := data[..];
      NothingBefore(ReadDescriptions(s, p, nrDesc));
      while i < nrDesc
        invariant 0 <= i <= nrDesc && |desc| == i && 0 <= p <= size
        invariant name == s[..32] && version == FromLe(s[32..34]) && nrDesc == FromLe(s[34..36])
        invariant nrDesc < 0x10000 && version < 0x10000
        invariant var rest := ReadDescriptions(s, p, nrDesc - i);
                  ReadDescriptions(s, HEADER_LENGTH, nrDesc)
                  == if rest.Done? then Done(desc + rest.value, rest.next) else rest
      {
        var d := ReadOne(data, p);
        if d.Invalid? { return Invalid; }
        if d.PastEnd? { return PastEnd; }
        AppendOne(desc, d.value, ReadDescriptions(s, d.next, nrDesc - i - 1));
        desc := desc + [d.value];
        p := d.next;
        i := i + 1;
      }
      assert desc + [] == desc && desc[..nrDesc] == desc;
      return Done(Image(name, version, desc), p);
    }

    // write_firmware: the size is computed first, then the bytes are written.
    method Write() returns (data: array<Byte>)
      requires Valid()
      ensures data[..] == ImageBytes(View())
    {
      hide Le, DescriptionBytes, DescriptionsBytes;
      var descs := desc[..nrDesc];
      var size := WrittenSize(descs);
      data := new Byte[size];
      ghost var f := View();
      ghost var head := f.name + Le(f.version, 2) + Le(|f.descs|, 2);
      assert f.name[..32] == f.name;
      var p := PutBytes(data, 0, name[..32]);
      p := PutBytes(data, p, Le(version, 2));
      p := PutBytes(data, p, Le(nrDesc, 2));
      assert data[..p] == head;
      assert descs[0..] == descs;
      var i := 0;
      while i < nrDesc
        invariant 0 <= i <= nrDesc && 0 <= p <= data.Length
        invariant p + |DescriptionsBytes(descs[i..])| == data.Length
        invariant data[..p] + DescriptionsBytes(descs[i..]) == head + DescriptionsBytes(descs)
      {
        DescriptionsFrom(descs, i);
        ghost var before := data[..p];
        p := PutDescription(data, p, descs[i]);
        AppendAssoc(before, DescriptionBytes(descs[i]), DescriptionsBytes(descs[i + 1..]));
        i := i + 1;
      }
      NoDescriptions(descs[i..]);
      assert data[..] == data[..p] + [];
    }
  }

  // The size that write_firmware computes before it writes.
  method WrittenSize(descs: seq<Description>) returns (size: nat)
    ensures size == HEADER_LENGTH + |DescriptionsBytes(descs)|
  {
    size := HEADER_LENGTH + |descs| * DESC_HEADER_LENGTH;
    var i := 0;
    assert descs[0..] == descs;
    while i < |descs|
      invariant 0 <= i <= |descs|
      invariant size + |DescriptionsBytes(descs[i..])|
             == HEADER_LENGTH + |DescriptionsBytes(descs)| + (|descs| - i) * DESC_HEADER_LENGTH
    {
      DescriptionsFrom(descs, i);
      size := size + |descs[i].data|;
      i := i + 1;
    }
    NoDescriptions(descs[i..]);
  }

  // The body of the loop of write_firmware.
  method PutDescription(data: array<Byte>, start: nat, d: Description) returns (next: nat)
    requires start + |DescriptionBytes(d)| <= data.Length
    modifies data
    ensures next == start + |DescriptionBytes(d)| && data[..next] == old(data[..start]) + DescriptionBytes(d)
  {
    hide Le;
    next := PutBytes(data, start, Le(d.kind, 4));
    next := PutBytes(data, next, Le(d.id, 8));
    next := PutBytes(data, next, Le(|d.data|, 4));
    next := PutBytes(data, next, d.data);
    Flatten(old(data[..start]), Le(d.kind, 4), Le(d.id, 8), Le(|d.data|, 4), d.data);
  }

  lemma Flatten<T>(a: seq<T>, b: seq<T>, c: seq<T>, d: seq<T>, e: seq<T>)
    ensures (((a + b) + c) + d) + e == a + (((b + c) + d) + e)
  {
  }

  lemma TwoBytes(b: seq<Byte>)
    requires |b| == 2
    ensures FromLe(b) < 0x10000
  {
    LeOfFromLe(b);
    PowTwo();
  }

  lemma NothingBefore(rest: Reading<seq<Description>>)
    ensures rest == if rest.Done? then Done([] + rest.value, rest.next) else rest
  {
    if rest.Done? { assert [] + rest.value == rest.value; }
  }

  function Zeros(n: nat): (b: seq<Byte>)
    ensures |b| == n
  {
    seq(n, i => 0)
  }

  lemma NoDescriptions(descs: seq<Description>)
    ensures descs == [] ==> DescriptionsBytes(descs) == []
  {
  }

  lemma DescriptionsFrom(descs: seq<Description>, i: nat)
    requires i < |descs|
    ensures DescriptionsBytes(descs[i..]) == DescriptionBytes(descs[i]) + DescriptionsBytes(descs[i + 1..])
  {
    assert descs[i..][1..] == descs[i + 1..];
  }

  lemma AppendOne(a: seq<Description>, d: Description, rest: Reading<seq<Description>>)
    ensures rest.Done? ==> a + ([d] + rest.value) == (a + [d]) + rest.value
  {
  }

  // memcpy to the cursor, which advances.
  method PutBytes(data: array<Byte>, p: nat, bytes: seq<Byte>) returns (next: nat)
    requires p + |bytes| <= data.Length
    modifies data
    ensures next == p + |bytes| && data[..next] == old(data[..p]) + bytes
  {
    forall k | 0 <= k < |bytes| { data[p + k] := bytes[k]; }
    next := p + |bytes|;
  }

  // The body of the loop of read_firmware.
  method ReadOne(data: array<Byte>, start: nat) returns (r: Reading<Description>)
    requires start <= data.Length
    ensures r == ReadDescription(data[..], start)
  {
    hide FromLe, HasIf;
    ghost var s := data[..];
    var p := start;
    if p + DESC_HEADER_LENGTH > data.Length { return Invalid; }
    assert data[p..p + 4] == s[p..p + 4];
    var kind := FromLe(data[p..p + 4]);
    p := p + 4;
    var id := FromLe(data[p..p + 8]);
    p := p + 8;
    var intFreq := 0;
    if HasIf(kind) {
      intFreq := FromLe(data[p..p + 2]);
      p := p + 2;
    }
    if p + 4 > data.Length { return PastEnd; }
    var size := FromLe(data[p..p + 4]);
    p := p + 4;
    if p + size > data.Length { return Invalid; }
    return Done(Description(kind, id, intFreq, data[p..p + size]), p + size);
  }
}
