// lib/libdvbv5/descriptors.c: MPEG descriptors (section 2.6 of ITU-T H.222.0)
// parsed into a linked list, the release of such a list, and BCD numbers.

module Descriptors {
  import opened Base

  // A row of dvb_descriptors: without an init function the default one copies
  // the payload.  An init function sees the payload, and either refuses it or
  // fills the rest of the structure, whose bytes are its result; it leaves the
  // header alone.
  datatype Handler = Default | Own(size: nat, init: seq<Byte> -> Option<seq<Byte>>)

  type Table = Byte -> Handler

  type Payload = p: seq<Byte> | |p| < 256 witness []

  datatype Item = Item(kind: Byte, payload: Payload)

  predicate HasSize(t: Table, kind: Byte) { t(kind).Default? || t(kind).size > 0 }

  function Init(t: Table, it: Item): Option<seq<Byte>> {
    if t(it.kind).Default? then Some(it.payload) else t(it.kind).init(it.payload)
  }

  predicate Accepted(t: Table, it: Item) {
    it.kind != 0xff && HasSize(t, it.kind) && Init(t, it).Some?
  }

  predicate AllAccepted(t: Table, items: seq<Item>) { forall it <- items :: Accepted(t, it) }

  // ----- The wire format -----

  function ItemBytes(it: Item): (b: seq<Byte>)
    ensures |b| == 2 + |it.payload|
  {
    [it.kind, |it.payload|] + it.payload
  }

  function Serialised(items: seq<Item>): seq<Byte> {
    if items == [] then [] else ItemBytes(items[0]) + Serialised(items[1..])
  }

  // ----- Specification of the parser -----

  // The first descriptor of b, or why there is none: the return code.
  datatype First = Stop(code: int) | Take(item: Item)

  // room is the number of allocations that still succeed.
  function Head(t: Table, b: seq<Byte>, room: nat): (r: First)
    ensures r.Take? ==> |b| >= 2 + |r.item.payload| && |r.item.payload| == b[1]
  {
    if |b| < 2 || b[0] == 0xff then Stop(0)
    else if 2 + b[1] > |b| then Stop(-1)
    else if !HasSize(t, b[0]) then Stop(-2)
    else if room == 0 then Stop(-3)
    else
      var it := Item(b[0], b[2..2 + b[1]]);
      if Init(t, it).None? then Stop(-4) else Take(it)
  }

  datatype Parsing = Parsing(items: seq<Item>, code: int)

  function ParseAll(t: Table, b: seq<Byte>, room: nat): Parsing
    decreases room
  {
    match Head(t, b, room)
    case Stop(code) => Parsing([], code)
    case Take(it) =>
      if room == 0 then Parsing([], -3)
      else
        var rest := ParseAll(t, b[2 + |it.payload|..], room - 1);
        Parsing([it] + rest.items, rest.code)
  }

  // ----- What is parsed -----

  lemma HeadTakesIff(t: Table, b: seq<Byte>, room: nat, it: Item)
    ensures Head(t, b, room) == Take(it)
       <==> room > 0 && Accepted(t, it) && ItemBytes(it) <= b
  {
    if room > 0 && Accepted(t, it) && ItemBytes(it) <= b {
      var c := ItemBytes(it);
      assert b[0] == c[0] && b[1] == c[1];
      assert b[2..2 + b[1]] == c[2..] == it.payload;
    }
    if Head(t, b, room) == Take(it) {
      assert ItemBytes(it) == b[..2 + b[1]];
    }
  }

  // One turn of the parser.
  lemma ParseStep(t: Table, b: seq<Byte>, room: nat)
    ensures match Head(t, b, room)
      case Stop(code) => ParseAll(t, b, room) == Parsing([], code)
      case Take(it) =>
        && room > 0 && |ItemBytes(it)| <= |b|
        && var rest := ParseAll(t, b[|ItemBytes(it)|..], room - 1);
           ParseAll(t, b, room) == Parsing([it] + rest.items, rest.code)
  {
    hide HasSize, Init;
  }

  lemma SerialisedCons(it: Item, rest: seq<Item>)
    ensures Serialised([it] + rest) == ItemBytes(it) + Serialised(rest)
  {
    assert ([it] + rest)[1..] == rest;
  }

  lemma AllCons(t: Table, it: Item, rest: seq<Item>)
    ensures AllAccepted(t, [it] + rest) <==> Accepted(t, it) && AllAccepted(t, rest)
  {
    var all := [it] + rest;
    assert all[0] == it && all[1..] == rest;
    assert forall e <- all :: e == it || e in rest;
  }

  lemma PrefixCons<T>(a: seq<T>, more: seq<T>, b: seq<T>)
    ensures a + more <= b <==> a <= b && more <= b[|a|..]
    ensures a <= b && more <= b[|a|..] ==> b[|a|..][|more|..] == b[|a + more|..]
  {
    if a <= b && more <= b[|a|..] {
      assert b == a + b[|a|..];
      assert b[|a|..] == more + b[|a|..][|more|..];
      assert b == (a + more) + b[|a|..][|more|..];
    }
  }

  // The parsed descriptors are accepted, and their bytes begin the buffer; the
  // return code says why the next bytes are not a further descriptor.
  lemma {:induction false} ParsedIsPrefix(t: Table, b: seq<Byte>, room: nat)
    ensures var r := ParseAll(t, b, room);
            && AllAccepted(t, r.items) && |r.items| <= room
            && Serialised(r.items) <= b
            && Head(t, b[|Serialised(r.items)|..], room - |r.items|) == Stop(r.code)
    decreases room
  {
    hide *;
    ParseStep(t, b, room);
    match Head(t, b, room)
    case Stop(code) =>
      NothingParsed(t);
      assert b[0..] == b;
    case Take(it) =>
      HeadTakesIff(t, b, room, it);
      var n := |ItemBytes(it)|;
      ParsedIsPrefix(t, b[n..], room - 1);
      var rest := ParseAll(t, b[n..], room - 1);
      AllCons(t, it, rest.items);
      SerialisedCons(it, rest.items);
      PrefixCons(ItemBytes(it), Serialised(rest.items), b);
  }

  lemma NothingParsed(t: Table)
    ensures Serialised([]) == [] && AllAccepted(t, [])
  {
  }

  // No list of accepted descriptors that begins the buffer goes further.
  lemma {:induction false} ParsedIsLongest(t: Table, b: seq<Byte>, room: nat, items: seq<Item>)
    requires AllAccepted(t, items) && |items| <= room
    requires Serialised(items) <= b
    ensures items <= ParseAll(t, b, room).items
    decreases |items|
  {
    hide *;
    if items != [] {
      var it, rest := items[0], items[1..];
      assert items == [it] + rest;
      AllCons(t, it, rest);
      SerialisedCons(it, rest);
      PrefixCons(ItemBytes(it), Serialised(rest), b);
      HeadTakesIff(t, b, room, it);
      ParseStep(t, b, room);
      ParsedIsLongest(t, b[|ItemBytes(it)|..], room - 1, rest);
    }
  }

  // What is written is read back, whatever stops the parser behind it.
  lemma {:induction false} ParseOfSerialised(t: Table, items: seq<Item>, after: seq<Byte>, room: nat)
    requires AllAccepted(t, items) && |items| <= room
    requires Head(t, after, room - |items|).Stop?
    ensures ParseAll(t, Serialised(items) + after, room)
         == Parsing(items, Head(t, after, room - |items|).code)
    decreases |items|
  {
    hide *;
    var b := Serialised(items) + after;
    ParseStep(t, b, room);
    if items == [] {
      NothingParsed(t);
      assert b == after;
    } else {
      var it, rest := items[0], items[1..];
      assert items == [it] + rest;
      AllCons(t, it, rest);
      SerialisedCons(it, rest);
      AppendAssoc(ItemBytes(it), Serialised(rest), after);
      assert b[|ItemBytes(it)|..] == Serialised(rest) + after;
      HeadTakesIff(t, b, room, it);
      ParseOfSerialised(t, rest, after, room - 1);
    }
  }

  // What stops the parser, by the return code: at 0xff or with less than a
  // header left, 0; at a payload that is cut short, -1; at a type with an init
  // function but no size, -2; when memory is used up, -3; and at a payload that
  // its init function refuses, -4.
  lemma StopReasonIff(t: Table, b: seq<Byte>, room: nat)
    ensures var r := ParseAll(t, b, room);
            && |Serialised(r.items)| <= |b| && |r.items| <= room
            && var rest := b[|Serialised(r.items)|..];
               var header := |rest| >= 2 && rest[0] != 0xff;
               var complete := header && 2 + rest[1] <= |rest|;
               var sized := complete && (t(rest[0]) == Default || t(rest[0]).size > 0);
               && (r.code == 0 <==> |rest| < 2 || rest[0] == 0xff)
               && (r.code == -1 <==> header && !complete)
               && (r.code == -2 <==> complete && !sized)
               && (r.code == -3 <==> sized && |r.items| == room)
               && (r.code == -4 <==> && sized && |r.items| < room
                                     && t(rest[0]) != Default && t(rest[0]).init(rest[2..2 + rest[1]]) == None)
               && -4 <= r.code <= 0
  {
    ParsedIsPrefix(t, b, room);
    hide ParseAll, Serialised, AllAccepted, ItemBytes;
  }

  // Where the first descriptor is and where the next one.
  lemma FirstParsed(t: Table, b: seq<Byte>, room: nat)
    requires ParseAll(t, b, room).items != []
    ensures room > 0 && |b| >= 2 && 2 + b[1] <= |b| && b[0] != 0xff
    ensures ParseAll(t, b, room).items
         == [Item(b[0], b[2..2 + b[1]])] + ParseAll(t, b[2 + b[1]..], room - 1).items
  {
    ParseStep(t, b, room);
    hide ParseAll, HasSize, Init;
  }

  // ----- The list on the heap -----

  class Desc {
    var kind: Byte
    var length: Byte
    var next: Desc?
    var data: seq<Byte>

    // calloc and dvb_desc_init
    constructor (kind: Byte, length: Byte)
      ensures this.kind == kind && this.length == length && next == null && data == []
    {
      this.kind, this.length, next, data := kind, length, null, [];
    }
  }

  function At(nodes: seq<Desc>, i: nat): Desc? { if i < |nodes| then nodes[i] else null }

  // nodes are the nodes of the list, in order.
  predicate Linked(list: Desc?, nodes: seq<Desc>)
    reads nodes
  {
    list == At(nodes, 0) && forall i | 0 <= i < |nodes| :: nodes[i].next == At(nodes, i + 1)
  }

  // The list is acyclic.
  lemma {:induction false} Acyclic(list: Desc?, nodes: seq<Desc>, i: nat, j: nat)
    requires Linked(list, nodes) && i < j < |nodes|
    ensures nodes[i] != nodes[j]
    decreases |nodes| - j
  {
    if nodes[i] == nodes[j] {
      assert nodes[i].next == At(nodes, i + 1) && nodes[j].next == At(nodes, j + 1);
      if j + 1 < |nodes| { Acyclic(list, nodes, i + 1, j + 1); }
    }
  }

  // A list has one sequence of nodes.
  lemma {:induction false} NodesUnique(list: Desc?, a: seq<Desc>, b: seq<Desc>)
    requires Linked(list, a) && Linked(list, b)
    ensures a == b
    decreases |a|
  {
    if a != [] && b != [] {
      assert a[0] == b[0];
      var next := a[0].next;
      assert forall i | 0 <= i < |a[1..]| :: a[1..][i] == a[i + 1];
      assert forall i | 0 <= i < |b[1..]| :: b[1..][i] == b[i + 1];
      assert Linked(next, a[1..]) && Linked(next, b[1..]);
      NodesUnique(next, a[1..], b[1..]);
      assert a == [a[0]] + a[1..] && b == [b[0]] + b[1..];
    }
  }

  predicate Holds(t: Table, node: Desc, it: Item)
    reads node
  {
    && node.kind == it.kind && node.length as int == |it.payload|
    && Init(t, it) == Some(node.data)
  }

  predicate HoldAll(t: Table, nodes: seq<Desc>, items: seq<Item>)
    reads nodes
  {
    |nodes| == |items| && forall i | 0 <= i < |nodes| :: Holds(t, nodes[i], items[i])
  }

  // A node holds the payload itself if its type has no init function, and else
  // what that function makes of it.
  lemma HeldPayload(t: Table, node: Desc, it: Item)
    requires Holds(t, node, it)
    ensures node.kind == it.kind && node.length as int == |it.payload|
    ensures t(it.kind) == Default ==> node.data == it.payload
    ensures t(it.kind) != Default ==> t(it.kind).init(it.payload) == Some(node.data)
  {
  }

  // What the parser has when it stands at the bytes b of the buffer s.
  ghost predicate Reached(t: Table, s: seq<Byte>, memory: nat, items: seq<Item>, b: seq<Byte>, room: nat) {
    var rest := ParseAll(t, b, room);
    ParseAll(t, s, memory) == Parsing(items + rest.items, rest.code)
  }

  lemma ReachedStep(t: Table, s: seq<Byte>, memory: nat, items: seq<Item>, b: seq<Byte>, room: nat)
    requires Reached(t, s, memory, items, b, room)
    ensures match Head(t, b, room)
      case Stop(code) => ParseAll(t, s, memory) == Parsing(items, code)
      case Take(it) => && room > 0 && |ItemBytes(it)| <= |b|
                       && Reached(t, s, memory, items + [it], b[|ItemBytes(it)|..], room - 1)
  {
    hide ParseAll, Head, ItemBytes;
    ParseStep(t, b, room);
    match Head(t, b, room)
    case Stop(_) => assert items + [] == items;
    case Take(it) => AppendAssoc(items, [it], ParseAll(t, b[|ItemBytes(it)|..], room - 1).items);
  }

  ghost predicate Built(t: Table, list: Desc?, last: Desc?, nodes: seq<Desc>, items: seq<Item>)
    reads nodes
  {
    && Linked(list, nodes) && HoldAll(t, nodes, items)
    && last == (if nodes == [] then null else nodes[|nodes| - 1])
  }

  // The new node goes behind the last one.
  method Append(t: Table, list: Desc?, last: Desc?, current: Desc, ghost nodes: seq<Desc>, ghost items: seq<Item>,
                ghost it: Item)
    returns (head: Desc)
    requires Built(t, list, last, nodes, items) && current !in nodes
    requires current.next == null && Holds(t, current, it)
    modifies last
    ensures Built(t, head, current, nodes + [current], items + [it])
  {
    hide Init;
    forall i | 0 <= i < |nodes| - 1 ensures nodes[i] != last { Acyclic(list, nodes, i, |nodes| - 1); }
    head := if list == null then current else list;
    if last != null { last.next := current; }
  }

  // dvb_desc_parse.  On every path the list holds the descriptors parsed.
  method Parse(t: Table, buf: array<Byte>, memory: nat)
    returns (code: int, list: Desc?, ghost nodes: seq<Desc>)
    ensures Linked(list, nodes) && fresh(set n | n in nodes)
    ensures HoldAll(t, nodes, ParseAll(t, buf[..], memory).items)
    ensures code == ParseAll(t, buf[..], memory).code
  {
    hide HasSize, Init, HoldAll, Linked, ParseAll, Reached;
    ghost var s := buf[..];
    var ptr, room := 0, memory;
    var last: Desc? := null;
    list, nodes := null, [];
    ghost var items: seq<Item> := [];
    Start(t, s, memory);
    while ptr + 2 <= buf.Length
      invariant 0 <= ptr <= buf.Length && 0 <= room && s == buf[..]
      invariant fresh(set n | n in nodes) && Built(t, list, last, nodes, items)
      invariant Reached(t, s, memory, items, s[ptr..], room)
    {
      ghost var b := s[ptr..];
      ReachedStep(t, s, memory, items, b, room);
      var kind, len := buf[ptr], buf[ptr + 1];
      assert b[0] == kind && b[1] == len;
      if kind == 0xff { return 0, list, nodes; }
      ptr := ptr + 2;
      if ptr + len > buf.Length { return -1, list, nodes; }
      if !HasSize(t, kind) { return -2, list, nodes; }
      if room == 0 { return -3, list, nodes; }
      var current := new Desc(kind, len);
      var it := Item(kind, buf[ptr..ptr + len]);
      assert buf[ptr..ptr + len] == b[2..2 + len];
      assert s[ptr + len..] == b[2 + len..];
      var filled := Init(t, it);
      if filled.None? { return -4, list, nodes; }
      current.data := filled.value;
      list := Append(t, list, last, current, nodes, items, it);
      last := current;
      ptr := ptr + current.length;
      room := room - 1;
      nodes, items := nodes + [current], items + [it];
    }
    ReachedStep(t, s, memory, items, s[ptr..], room);
    code := 0;
  }

  lemma Start(t: Table, s: seq<Byte>, memory: nat)
    ensures Reached(t, s, memory, [], s[0..], memory)
    ensures Built(t, null, null, [], [])
  {
    assert s[0..] == s;
    assert [] + ParseAll(t, s, memory).items == ParseAll(t, s, memory).items;
  }

  // dvb_desc_free: the nodes that it releases, in the order of release.
  method Free(list: Desc?, ghost nodes: seq<Desc>) returns (end: Desc?, freed: seq<Desc>)
    requires Linked(list, nodes)
    ensures end == null && freed == nodes
    ensures forall i, j | 0 <= i < j < |freed| :: freed[i] != freed[j]
  {
    var desc := list;
    freed := [];
    while desc != null
      invariant |freed| <= |nodes| && freed == nodes[..|freed|] && desc == At(nodes, |freed|)
      decreases |nodes| - |freed|
    {
      var tmp := desc;
      desc := desc.next;
      freed := freed + [tmp];
    }
    end := null;
    forall i, j | 0 <= i < j < |freed| ensures freed[i] != freed[j] { Acyclic(list, nodes, i, j); }
  }

  // ----- BCD -----

  function Power(b: nat, k: nat): (p: nat)
    ensures b > 0 ==> p > 0
  {
    if k == 0 then 1 else b * Power(b, k - 1)
  }

  // The value of the hexadecimal digits of x read as decimal ones.
  function Digits(x: nat): nat {
    if x == 0 then 0 else x % 16 + 10 * Digits(x / 16)
  }

  // Four bits more are a decimal digit more; an eight-digit number reads the same.
  lemma DigitsShifted(x: nat, d: nat)
    requires d < 16
    ensures Digits(16 * x + d) == 10 * Digits(x) + d
  {
    assert (16 * x + d) / 16 == x && (16 * x + d) % 16 == d;
  }

  lemma NoDigits()
    ensures Digits(0) == 0
  {
  }

  lemma EightDigits()
    ensures Digits(0x12345678) == 12345678
  {
    hide Digits;
    NoDigits();
    DigitsShifted(0, 1);
    DigitsShifted(1, 2);
    DigitsShifted(0x12, 3);
    DigitsShifted(0x123, 4);
    DigitsShifted(0x1234, 5);
    DigitsShifted(0x12345, 6);
    DigitsShifted(0x123456, 7);
    DigitsShifted(0x1234567, 8);
  }

  function ToBcd(x: nat): nat {
    if x == 0 then 0 else x % 10 + 16 * ToBcd(x / 10)
  }

  predicate IsBcd(x: nat) { x == 0 || (x % 16 < 10 && IsBcd(x / 16)) }

  lemma {:induction false} DigitsOfToBcd(x: nat)
    ensures IsBcd(ToBcd(x)) && Digits(ToBcd(x)) == x
  {
    if x > 0 {
      DigitsOfToBcd(x / 10);
      var y := ToBcd(x / 10);
      assert (x % 10 + 16 * y) / 16 == y && (x % 10 + 16 * y) % 16 == x % 10;
      assert ToBcd(x) > 0;
    }
  }

  // Only a proper BCD number is the one of its value.
  lemma {:induction false} ToBcdOfDigitsIff(x: nat)
    ensures ToBcd(Digits(x)) == x <==> IsBcd(x)
  {
    if ToBcd(Digits(x)) == x { DigitsOfToBcd(Digits(x)); }
    if IsBcd(x) { ToBcdOfDigits(x); }
  }

  lemma {:induction false} ToBcdOfDigits(x: nat)
    requires IsBcd(x)
    ensures ToBcd(Digits(x)) == x
  {
    if x > 0 {
      ToBcdOfDigits(x / 16);
      var y := Digits(x / 16);
      assert (x % 16 + 10 * y) / 10 == y && (x % 16 + 10 * y) % 10 == x % 16;
    }
  }

  lemma {:induction false} DigitsBound(x: nat, k: nat)
    requires x < Power(16, k)
    ensures 9 * Digits(x) <= 15 * (Power(10, k) - 1)
    decreases k
  {
    if x > 0 { DigitsBound(x / 16, k - 1); }
  }

  // A product on C's unsigned integers, before it is reduced.
  function Times(a: nat, b: nat): nat { a * b }

  // dvb_bcd: on 32 bits neither the sum nor the multiplier wraps.
  method Bcd(bcd: nat) returns (ret: nat)
    requires bcd < U32
    ensures ret == Digits(bcd)
  {
    hide Power, Digits, Times;
    var rest, mult := bcd, 1;
    ghost var n := 8;
    ret := 0;
    BcdStart(bcd);
    while rest != 0
      invariant 0 <= n <= 8 && 0 <= rest < Power(16, n) && 0 <= ret && mult > 0
      invariant ret + Times(mult, Digits(rest)) == Digits(bcd)
      invariant Times(mult, Power(10, n)) == 100_000_000
      decreases n
    {
      BcdStep(mult, rest, n);
      var digit := Times(mult, rest % 16);
      var next := mult * 10;
      ret := (ret + digit) % U32;
      rest := rest / 16;
      mult := next % U32;
      n := n - 1;
    }
    BcdEnd(mult);
  }

  lemma BcdStart(bcd: nat)
    requires bcd < U32
    ensures bcd < Power(16, 8) && Times(1, Power(10, 8)) == 100_000_000
    ensures Times(1, Digits(bcd)) == Digits(bcd) < U32
  {
    assert Power(16, 4) == 0x10000 && Power(10, 4) == 10_000;
    DigitsBound(bcd, 8);
  }

  lemma BcdStep(mult: nat, rest: nat, n: nat)
    requires 0 < rest < Power(16, n) && mult > 0
    ensures n > 0 && rest / 16 < Power(16, n - 1)
    ensures Times(mult, Digits(rest)) == Times(mult, rest % 16) + Times(mult * 10, Digits(rest / 16))
    ensures mult * 10 <= Times(mult, Power(10, n)) == Times(mult * 10, Power(10, n - 1))
  {
    var d, p, low := Digits(rest / 16), Power(10, n - 1), rest % 16;
    assert Digits(rest) == low + 10 * d && Power(10, n) == 10 * p;
    hide Power, Digits, Times;
    Distributes(mult, low, d);
    Shifted(mult, p);
  }

  lemma Distributes(mult: nat, low: nat, d: nat)
    ensures Times(mult, low + 10 * d) == Times(mult, low) + Times(mult * 10, d)
  {
  }

  lemma Shifted(mult: nat, p: nat)
    requires p > 0
    ensures mult * 10 <= Times(mult, 10 * p) == Times(mult * 10, p)
  {
    var m := mult * 10;
    assert m * p == m * (p - 1) + m;
  }

  lemma BcdEnd(mult: nat)
    ensures Times(mult, Digits(0)) == 0
  {
  }
}
