// include/v4l-getsubopt.h: v4l_getsubopt, which cuts a comma-separated string
// into suboptions in place, over either form of v4l_strchrnul.

module Getsubopt {
  import opened Base
  import opened Strchrnul

  type Chars = seq<bv8>

  const COMMA: bv8 := 0x2c
  const EQUALS: bv8 := 0x3d
  const OPEN: bv8 := 0x28
  const CLOSE: bv8 := 0x29

  // The two builds: GETSUBOPT_IGNORE_COMMA_IN_BRACKET, or the word-at-a-time
  // search with its word size and byte order.
  datatype Build = Brackets | Words(size: nat, big: bool)

  // ----- Strings and their pieces -----

  // The string that starts at position i.
  function Str(mem: Chars, i: nat): (s: Chars)
    requires i <= |mem|
    ensures i + |s| <= |mem| && 0 !in s
    decreases |mem| - i
  {
    if i == |mem| || mem[i] == 0 then [] else [mem[i]] + Str(mem, i + 1)
  }

  function Deeper(depth: int, b: bv8): int {
    if b == OPEN then depth + 1 else if b == CLOSE then depth - 1 else depth
  }

  predicate Separates(build: Build, depth: int, b: bv8) {
    b == COMMA && (build == Brackets ==> depth == 0)
  }

  // The length of the piece s starts with, at a bracket depth.
  function PieceLen(build: Build, depth: int, s: Chars): (n: nat)
    ensures n <= |s|
    decreases |s|
  {
    if s == [] || Separates(build, depth, s[0]) then 0
    else 1 + PieceLen(build, Deeper(depth, s[0]), s[1..])
  }

  // The pieces of a string between its separating commas; nothing after a
  // comma at its end is no piece.
  function Pieces(build: Build, s: Chars): seq<Chars>
    decreases |s|
  {
    if s == [] then []
    else
      var n := PieceLen(build, 0, s);
      [s[..n]] + (if n < |s| then Pieces(build, s[n + 1..]) else [])
  }

  // The string with its separating commas replaced.
  function Cut(build: Build, s: Chars): (r: Chars)
    ensures |r| == |s|
    decreases |s|
  {
    if s == [] then []
    else
      var n := PieceLen(build, 0, s);
      if n < |s| then s[..n] + [0] + Cut(build, s[n + 1..]) else s
  }

  // ----- Pieces are what joining with commas undoes -----

  function Depth(depth: int, s: Chars): int
    decreases |s|
  {
    if s == [] then depth else Depth(Deeper(depth, s[0]), s[1..])
  }

  // A string that stays one piece, and that a comma behind it ends.
  predicate IsPiece(build: Build, depth: int, s: Chars) {
    && PieceLen(build, depth, s) == |s|
    && Separates(build, Depth(depth, s), COMMA)
  }

  // The pieces, each followed by a comma.
  function Terminated(ps: seq<Chars>): Chars {
    if ps == [] then [] else ps[0] + [COMMA] + Terminated(ps[1..])
  }

  lemma {:induction false} PieceLenAppend(build: Build, depth: int, p: Chars, rest: Chars)
    requires IsPiece(build, depth, p)
    ensures PieceLen(build, depth, p + [COMMA] + rest) == |p|
    decreases |p|
  {
    var s := p + [COMMA] + rest;
    if p == [] {
      assert s[0] == COMMA;
    } else {
      assert s[0] == p[0] && s[1..] == p[1..] + [COMMA] + rest;
      PieceLenAppend(build, Deeper(depth, p[0]), p[1..], rest);
    }
  }

  // Cutting the joined pieces gives the pieces back.
  lemma {:induction false} PiecesOfTerminated(build: Build, ps: seq<Chars>)
    requires forall p <- ps :: IsPiece(build, 0, p)
    ensures Pieces(build, Terminated(ps)) == ps
  {
    if ps != [] {
      var s, rest := Terminated(ps), Terminated(ps[1..]);
      PieceLenAppend(build, 0, ps[0], rest);
      assert s[..|ps[0]|] == ps[0] && s[|ps[0]| + 1..] == rest;
      PiecesOfTerminated(build, ps[1..]);
    }
  }

  lemma {:induction false} PieceLenPrefix(build: Build, depth: int, s: Chars)
    ensures var n := PieceLen(build, depth, s);
            && PieceLen(build, depth, s[..n]) == n
            && (n < |s| ==> s[n] == COMMA && IsPiece(build, depth, s[..n]))
    decreases |s|
  {
    if s != [] && !Separates(build, depth, s[0]) {
      var n := PieceLen(build, depth, s);
      PieceLenPrefix(build, Deeper(depth, s[0]), s[1..]);
      assert s[..n][1..] == s[1..][..n - 1] && s[..n][0] == s[0];
    }
  }

  // Joining the pieces of a string gives the string back, but for a comma that
  // may be added at the end.
  lemma {:induction false} TerminatedPieces(build: Build, s: Chars)
    ensures var t := Terminated(Pieces(build, s));
            t == s || t == s + [COMMA]
    decreases |s|
  {
    if s != [] {
      var n := PieceLen(build, 0, s);
      PieceLenPrefix(build, 0, s);
      var ps := Pieces(build, s);
      if n < |s| {
        var rest := s[n + 1..];
        assert ps[1..] == Pieces(build, rest);
        TerminatedPieces(build, rest);
        Rejoin(s, n, Terminated(ps[1..]));
      } else {
        assert s[..n] == s;
        assert ps[1..] == [];
        assert Terminated(ps) == s + [COMMA] + [] == s + [COMMA];
      }
    }
  }

  lemma Rejoin(s: Chars, n: nat, t: Chars)
    requires n < |s| && s[n] == COMMA && (t == s[n + 1..] || t == s[n + 1..] + [COMMA])
    ensures var u := s[..n] + [COMMA] + t;
            u == s || u == s + [COMMA]
  {
    assert s == s[..n] + [COMMA] + s[n + 1..];
    AppendAssoc(s[..n] + [COMMA], s[n + 1..], [COMMA]);
  }

  // ----- The search that passes over brackets -----

  function Occurrences<T(==)>(x: T, s: seq<T>): nat { multiset(s)[x] }

  // As many opening brackets as closing ones.
  predicate Balanced(s: Chars) { Occurrences(0x28, s) == Occurrences(0x29, s) }

  // Where the bracket variant stops: at NUL, or at c outside all brackets.
  predicate Stops(mem: Chars, s: nat, c: bv8, k: nat)
    requires s <= k < |mem|
  {
    mem[k] == 0 || (mem[k] == c && c != 0x28 && c != 0x29 && Balanced(mem[s..k]))
  }

  function Excess(s: Chars): int { Occurrences(0x28, s) as int - Occurrences(0x29, s) }

  lemma OccurrencesAppend<T>(x: T, a: seq<T>, b: seq<T>)
    ensures Occurrences(x, a + b) == Occurrences(x, a) + Occurrences(x, b)
  {
    assert multiset(a + b) == multiset(a) + multiset(b);
  }

  lemma OccurrencesOne<T>(x: T, y: T)
    ensures Occurrences(x, [y]) == if x == y then 1 else 0
  {
    assert multiset([y]) == multiset{y};
    if x != y { assert x !in multiset{y}; }
  }

  lemma ExcessAppend(a: Chars, b: Chars)
    ensures Excess(a + b) == Excess(a) + Excess(b)
  {
    hide Occurrences;
    OccurrencesAppend(0x28, a, b);
    OccurrencesAppend(0x29, a, b);
  }

  lemma ExcessOne(b: bv8)
    ensures Excess([b]) == if b == 0x28 then 1 else if b == 0x29 then -1 else 0
  {
    hide Occurrences;
    OccurrencesOne(0x28, b);
    OccurrencesOne(0x29, b);
  }

  // The depth counts brackets, whatever their order.
  lemma {:induction false} DepthCounts(depth: int, s: Chars)
    ensures Depth(depth, s) == depth + Occurrences(0x28, s) - Occurrences(0x29, s)
    decreases |s|
  {
    if s != [] {
      DepthCounts(Deeper(depth, s[0]), s[1..]);
      ExcessOne(s[0]);
      ExcessAppend([s[0]], s[1..]);
      assert s == [s[0]] + s[1..];
    }
  }

  lemma {:induction false} DepthSnoc(depth: int, s: Chars, b: bv8)
    ensures Depth(depth, s + [b]) == Deeper(Depth(depth, s), b)
    decreases |s|
  {
    if s == [] {
      assert (s + [b])[1..] == [];
    } else {
      assert (s + [b])[0] == s[0] && (s + [b])[1..] == s[1..] + [b];
      DepthSnoc(Deeper(depth, s[0]), s[1..], b);
    }
  }

  method StrchrnulBrackets(mem: array<bv8>, s: nat, c: bv8) returns (p: nat)
    requires HasNul(mem[..], s)
    ensures s <= p < mem.Length && Stops(mem[..], s, c, p)
    ensures forall k :: s <= k < p ==> !Stops(mem[..], s, c, k)
  {
    ghost var n :| s <= n < mem.Length && mem[n] == 0;
    var inBrackets := 0;
    p := s;
    assert mem[s..s] == [];
    while mem[p] != 0
      invariant s <= p <= n && inBrackets == Depth(0, mem[s..p])
      invariant forall k :: s <= k < p ==> !Stops(mem[..], s, c, k)
      decreases n - p
    {
      assert mem[..][s..p] == mem[s..p] && mem[s..p + 1] == mem[s..p] + [mem[p]];
      DepthSnoc(0, mem[s..p], mem[p]);
      DepthCounts(0, mem[s..p]);
      if mem[p] == OPEN {
        inBrackets := inBrackets + 1;
      } else if mem[p] == CLOSE {
        inBrackets := inBrackets - 1;
      } else if mem[p] == c && inBrackets == 0 {
        break;
      }
      p := p + 1;
    }
  }

  // Where a search over the string from i on stops is where its piece ends.
  lemma {:induction false} PieceEnds(build: Build, depth: int, mem: Chars, i: nat, end: nat)
    requires i <= end < |mem|
    requires mem[end] == 0 || Separates(build, Depth(depth, mem[i..end]), mem[end])
    requires forall k :: i <= k < end ==> mem[k] != 0 && !Separates(build, Depth(depth, mem[i..k]), mem[k])
    ensures end == i + PieceLen(build, depth, Str(mem, i))
    decreases end - i
  {
    assert mem[i..i] == [];
    if i < end {
      hide Depth, Deeper;
      var deeper := Deeper(depth, mem[i]);
      forall k | i < k <= end ensures Depth(depth, mem[i..k]) == Depth(deeper, mem[i + 1..k]) {
        DepthShift(depth, mem, i, k);
      }
      NoDepth(depth);
      PieceEnds(build, deeper, mem, i + 1, end);
      assert Str(mem, i)[1..] == Str(mem, i + 1);
    }
  }

  lemma DepthShift(depth: int, mem: Chars, i: nat, k: nat)
    requires i < k <= |mem|
    ensures Depth(depth, mem[i..k]) == Depth(Deeper(depth, mem[i]), mem[i + 1..k])
  {
    assert mem[i..k][0] == mem[i] && mem[i..k][1..] == mem[i + 1..k];
  }

  lemma NoDepth(depth: int)
    ensures Depth(depth, []) == depth
  {
  }

  // Byte k of the string separates suboptions: a comma, and with brackets heeded
  // one with as many opening as closing ones in front of it.
  predicate Separator(build: Build, s: Chars, k: nat)
    requires k < |s|
  {
    s[k] == 0x2c && (build == Brackets ==> Balanced(s[..k]))
  }

  // A piece goes up to the first of them,
  lemma {:induction false} FirstSeparator(build: Build, depth: int, s: Chars, k: nat)
    requires k <= PieceLen(build, depth, s) && k < |s|
    ensures (s[k] == 0x2c && (build == Brackets ==> depth + Excess(s[..k]) == 0)) <==> k == PieceLen(build, depth, s)
    decreases k
  {
    hide Excess;
    if k == 0 {
      NoExcess();
      assert s[..0] == [];
    } else {
      FirstSeparator(build, Deeper(depth, s[0]), s[1..], k - 1);
      assert s[1..][..k - 1] == s[1..k] && s[..k] == [s[0]] + s[1..k];
      ExcessOne(s[0]);
      ExcessAppend([s[0]], s[1..k]);
    }
  }

  lemma NoExcess()
    ensures Excess([]) == 0
  {
  }

  lemma PieceLenIff(build: Build, s: Chars, n: nat)
    requires n <= |s|
    ensures n == PieceLen(build, 0, s)
       <==> (n < |s| ==> Separator(build, s, n)) && forall k :: 0 <= k < n ==> !Separator(build, s, k)
  {
    hide PieceLen;
    var len := PieceLen(build, 0, s);
    forall k | 0 <= k <= len && k < |s| ensures Separator(build, s, k) <==> k == len {
      FirstSeparator(build, 0, s, k);
    }
    if n < len {
      assert !Separator(build, s, n);
    } else if len < n {
      assert Separator(build, s, len);
    }
  }

  // and what becomes NUL are all of them.
  lemma {:induction false} CutIsSeparators(build: Build, s: Chars, k: nat)
    requires k < |s|
    ensures Cut(build, s)[k] == if Separator(build, s, k) then 0 else s[k]
    decreases |s|
  {
    hide Balanced;
    var n := PieceLen(build, 0, s);
    PieceLenIff(build, s, n);
    if n < k {
      var rest := s[n + 1..];
      CutIsSeparators(build, rest, k - n - 1);
      SeparatorBehind(build, s, n, k);
    }
  }

  // Behind a separator, counting may start anew.
  lemma SeparatorBehind(build: Build, s: Chars, n: nat, k: nat)
    requires n < k < |s| && Separator(build, s, n)
    ensures Separator(build, s, k) <==> Separator(build, s[n + 1..], k - n - 1)
  {
    var inner := s[n + 1..][..k - n - 1];
    assert s[..k] == s[..n] + ([0x2c] + inner);
    ExcessAppend(s[..n], [0x2c] + inner);
    ExcessAppend([0x2c], inner);
    ExcessOne(0x2c);
  }

  // "((),)": the comma is within the outer brackets, and the string one piece.
  lemma BracketsHeeded(s: Chars)
    requires s == [0x28, 0x28, 0x29, 0x2c, 0x29]
    ensures Pieces(Brackets, s) == [s] && Cut(Brackets, s) == s
  {
    hide PieceLen, Balanced;
    PieceLenIff(Brackets, s, |s|);
    Inside(s);
    assert s[..|s|] == s;
  }

  lemma Inside(s: Chars)
    requires s == [0x28, 0x28, 0x29, 0x2c, 0x29]
    ensures forall k :: 0 <= k < |s| ==> !Separator(Brackets, s, k)
  {
    assert s[..3] == [0x28, 0x28] + [0x29] && [0x28, 0x28] == [0x28] + [0x28];
    ExcessAppend([0x28, 0x28], [0x29]);
    ExcessAppend([0x28], [0x28]);
    ExcessOne(0x28);
    ExcessOne(0x29);
  }

  predicate BuildFits(build: Build, length: nat) {
    build.Words? ==> (build.size == 4 || build.size == 8) && length % build.size == 0
  }

  // v4l_strchrnul (s, ',') in either build: the end of the piece.
  method PieceEnd(build: Build, mem: array<bv8>, s: nat) returns (end: nat)
    requires HasNul(mem[..], s) && BuildFits(build, mem.Length)
    ensures s <= mem.Length && end == s + PieceLen(build, 0, Str(mem[..], s))
    ensures end < mem.Length && (mem[end] == 0 || mem[end] == 0x2c)
  {
    match build {
      case Brackets => end := StrchrnulBrackets(mem, s, COMMA);
        forall k | s <= k < end
          ensures mem[k] != 0 && !Separates(build, Depth(0, mem[..][s..k]), mem[k])
        {
          assert !Stops(mem[..], s, COMMA, k);
          DepthCounts(0, mem[..][s..k]);
        }
        DepthCounts(0, mem[..][s..end]);
      case Words(size, big) => end := Strchrnul.Strchrnul(mem, s, COMMA, size, big);
    }
    PieceEnds(build, 0, mem[..], s, end);
  }

  // ----- One suboption -----

  // Memory holds the string s at position i, with NUL or its end behind.
  predicate Holds(mem: Chars, i: nat, s: Chars) {
    && i + |s| <= |mem|
    && (i + |s| < |mem| ==> mem[i + |s|] == 0)
    && forall j :: i <= j < i + |s| ==> mem[j] == s[j - i] && mem[j] != 0
  }

  lemma {:induction false} StrHolds(mem: Chars, i: nat)
    requires i <= |mem|
    ensures Holds(mem, i, Str(mem, i))
    decreases |mem| - i
  {
    if i < |mem| && mem[i] != 0 {
      StrHolds(mem, i + 1);
    }
  }

  lemma {:induction false} HoldsStr(mem: Chars, i: nat, s: Chars)
    requires Holds(mem, i, s)
    ensures Str(mem, i) == s
    decreases |s|
  {
    if s != [] {
      assert mem[i] == s[0];
      HoldsStr(mem, i + 1, s[1..]);
    }
  }

  // Memory that holds a NUL ends the string before its own end.
  lemma StrEnds(mem: Chars, i: nat)
    requires HasNul(mem, i)
    ensures i + |Str(mem, i)| < |mem| && Holds(mem, i, Str(mem, i))
  {
    StrHolds(mem, i);
  }

  // Putting NUL behind a piece leaves the piece, from any of its positions on,
  // and the rest of the string behind it.
  lemma CutString(mem: Chars, i: nat, n: nat, k: nat, cut: Chars)
    requires i <= |mem| && k <= n <= |Str(mem, i)| && i + n < |mem| && cut == mem[i + n := 0]
    ensures Str(cut, i + k) == Str(mem, i)[k..n]
    ensures n < |Str(mem, i)| ==> Str(cut, i + n + 1) == Str(mem, i)[n + 1..]
  {
    var s := Str(mem, i);
    StrHolds(mem, i);
    HoldsStr(cut, i + k, s[k..n]);
    if n < |s| {
      HoldsStr(cut, i + n + 1, s[n + 1..]);
    }
  }

  // The length of the name of a piece: up to its first equals sign.
  function NameLen(piece: Chars): (n: nat)
    ensures n <= |piece| && 0x3d !in piece[..n]
    ensures n < |piece| ==> piece[n] == 0x3d
  {
    if piece == [] || piece[0] == EQUALS then 0 else 1 + NameLen(piece[1..])
  }

  function Name(piece: Chars): Chars { piece[..NameLen(piece)] }

  // r is the least index of the name among the tokens, or -1.
  predicate IsLookup(tokens: seq<Chars>, name: Chars, r: int) {
    && -1 <= r < |tokens|
    && (r >= 0 ==> tokens[r] == name)
    && forall k :: 0 <= k < (if r == -1 then |tokens| else r) ==> tokens[k] != name
  }

  // memchr: the first equals sign of a stretch, or its end.
  method FindEquals(buf: array<bv8>, from: nat, to: nat) returns (p: nat)
    requires from <= to <= buf.Length
    ensures p == from + NameLen(buf[from..to])
  {
    p := from;
    while p < to && buf[p] != EQUALS
      invariant from <= p <= to
      invariant p + NameLen(buf[p..to]) == from + NameLen(buf[from..to])
    {
      assert buf[p..to][0] == buf[p] && buf[p..to][1..] == buf[p + 1..to];
      p := p + 1;
    }
    if p < to {
      assert buf[p..to][0] == EQUALS;
    }
  }

  // Where the caller's pointers are left, for a piece of length n.
  datatype Subopt = Subopt(ret: int, optionp: nat, valuep: Option<nat>)

  // The value pointer for a piece at i.
  function ValueAt(ret: int, i: nat, piece: Chars): Option<nat> {
    if ret == -1 then Some(i)
    else if |Name(piece)| < |piece| then Some(i + |Name(piece)| + 1)
    else None
  }

  predicate IsSubopt(build: Build, s: Chars, i: nat, tokens: seq<Chars>, r: Subopt)
    requires s != []
  {
    var n := PieceLen(build, 0, s);
    var name := Name(s[..n]);
    && IsLookup(tokens, name, r.ret)
    && r.optionp == (if n < |s| then i + n + 1 else i + n)
    && r.valuep == ValueAt(r.ret, i, s[..n])
  }

  lemma SuboptIs(build: Build, s: Chars, i: nat, tokens: seq<Chars>, n: nat, r: Subopt)
    requires s != [] && n == PieceLen(build, 0, s) && IsLookup(tokens, Name(s[..n]), r.ret)
    requires r.optionp == if n < |s| then i + n + 1 else i + n
    requires r.valuep == if r.ret == -1 then Some(i)
                         else if i + |Name(s[..n])| != i + n then Some(i + |Name(s[..n])| + 1)
                         else None
    ensures IsSubopt(build, s, i, tokens, r)
  {
    hide PieceLen, IsLookup, NameLen;
  }

  // if (*endp != '\\0') *endp++ = '\\0'
  method CutAt(buf: array<bv8>, endp: nat) returns (next: nat)
    requires endp < buf.Length
    modifies buf
    ensures buf[..] == old(buf[..])[endp := 0]
    ensures next == if old(buf[endp]) != 0 then endp + 1 else endp
    ensures HasNul(old(buf[..]), endp) ==> HasNul(buf[..], next)
  {
    ghost var mem := buf[..];
    next := endp;
    if buf[endp] != 0 {
      buf[endp] := 0;
      next := endp + 1;
    }
    if HasNul(mem, endp) {
      ghost var nul :| endp <= nul < |mem| && mem[nul] == 0;
      assert buf[..][nul] == 0 && next <= nul;
    }
  }

  // tokens are NUL-free strings, so that strncmp and the check of the byte
  // behind it amount to equality with the name.
  method Getsubopt(build: Build, buf: array<bv8>, optionp: nat, tokens: seq<Chars>, valuep: Option<nat>)
    returns (r: Subopt)
    requires HasNul(buf[..], optionp) && BuildFits(build, buf.Length)
    modifies buf
    ensures optionp + |Str(old(buf[..]), optionp)| < buf.Length
    ensures var s := Str(old(buf[..]), optionp);
            if s == [] then r == Subopt(-1, optionp, valuep) && buf[..] == old(buf[..])
            else IsSubopt(build, s, optionp, tokens, r)
                 && buf[..] == old(buf[..])[optionp + PieceLen(build, 0, s) := 0]
    ensures HasNul(buf[..], r.optionp)
  {
    hide PieceLen, NameLen, HasNul, IsSubopt, ValueAt;
    ghost var mem := buf[..];
    StrEnds(mem, optionp);
    StrStarts(mem, optionp);
    hide Str, Holds;
    if buf[optionp] == 0 { return Subopt(-1, optionp, valuep); }
    ghost var s := Str(mem, optionp);
    var endp := PieceEnd(build, buf, optionp);
    ghost var n := PieceLen(build, 0, s);
    PieceBytes(mem, optionp, n);
    var vstart := FindEquals(buf, optionp, endp);
    ghost var name := Name(s[..n]);
    assert buf[optionp..vstart] == name && vstart == optionp + |name|;
    hide Name;
    NulBehind(mem, optionp, n);
    var cnt := 0;
    while cnt < |tokens|
      invariant 0 <= cnt <= |tokens| && buf[..] == mem
      invariant forall k :: 0 <= k < cnt ==> tokens[k] != name
    {
      if tokens[cnt] == buf[optionp..vstart] {
        var value := if vstart != endp then Some(vstart + 1) else None;
        var next := CutAt(buf, endp);
        SuboptIs(build, s, optionp, tokens, n, Subopt(cnt, next, value));
        return Subopt(cnt, next, value);
      }
      cnt := cnt + 1;
    }
    var next := CutAt(buf, endp);
    SuboptIs(build, s, optionp, tokens, n, Subopt(-1, next, Some(optionp)));
    return Subopt(-1, next, Some(optionp));
  }

  lemma StrStarts(mem: Chars, i: nat)
    requires i < |mem|
    ensures Str(mem, i) == [] <==> mem[i] == 0
  {
  }

  lemma PieceBytes(mem: Chars, i: nat, n: nat)
    requires i <= |mem| && n <= |Str(mem, i)|
    ensures i + n <= |mem| && mem[i..i + n] == Str(mem, i)[..n]
    ensures i + n < |mem| ==> (mem[i + n] == 0 <==> n == |Str(mem, i)|)
  {
    StrHolds(mem, i);
  }

  lemma NulBehind(mem: Chars, i: nat, n: nat)
    requires HasNul(mem, i) && n <= |Str(mem, i)|
    ensures HasNul(mem, i + n)
  {
    StrEnds(mem, i);
    assert mem[i + |Str(mem, i)|] == 0;
  }

  // What the caller reads through the returned value pointer: the value of a
  // known suboption, or the whole of an unknown one; and no pointer means a
  // known suboption without a value.
  lemma ValueRead(build: Build, mem: Chars, i: nat, tokens: seq<Chars>, r: Subopt, piece: Chars)
    requires i <= |mem| && Str(mem, i) != [] && IsSubopt(build, Str(mem, i), i, tokens, r)
    requires piece == Str(mem, i)[..PieceLen(build, 0, Str(mem, i))] && i + |piece| < |mem|
    ensures match r.valuep
            case Some(v) => v <= |mem| && Str(mem[i + |piece| := 0], v)
                            == if r.ret == -1 then piece else piece[NameLen(piece) + 1..]
            case None => r.ret >= 0 && 0x3d !in piece
  {
    hide PieceLen, Str, NameLen, Separates;
    var s, n := Str(mem, i), |piece|;
    var cut := mem[i + n := 0];
    match r.valuep
    case Some(v) =>
      if r.ret == -1 {
        CutString(mem, i, n, 0, cut);
        assert s[0..n] == piece;
      } else {
        var k := NameLen(piece) + 1;
        CutString(mem, i, n, k, cut);
        assert s[k..n] == piece[k..];
      }
    case None =>
      assert piece[..n] == piece;
  }

  // ----- All suboptions -----

  // What is left of a string behind its first piece.
  function Rest(build: Build, s: Chars): Chars {
    var n := PieceLen(build, 0, s);
    if n < |s| then s[n + 1..] else []
  }

  lemma FirstPiece(build: Build, s: Chars)
    requires s != []
    ensures var n := PieceLen(build, 0, s);
            && Pieces(build, s) == [s[..n]] + Pieces(build, Rest(build, s))
            && Cut(build, s) == s[..n] + (if n < |s| then [0] else []) + Cut(build, Rest(build, s))
            && |Rest(build, s)| < |s|
  {
    hide PieceLen;
    var n := PieceLen(build, 0, s);
    if n == |s| {
      NoPieces(build);
      assert s[..n] == s;
    }
  }

  // What holds of the caller's loop: the pieces behind the option pointer are
  // looked up and are strings of their own,
  ghost predicate Visited(buf: Chars, tokens: seq<Chars>,
                          ps: seq<Chars>, found: seq<int>, starts: seq<nat>, optionp: nat) {
    && |found| == |starts| == |ps|
    && (forall k :: 0 <= k < |ps| ==> IsLookup(tokens, Name(ps[k]), found[k]))
    && (forall k :: 0 <= k < |ps| ==> Holds(buf, starts[k], ps[k]))
    && (forall k :: 0 <= k < |ps| ==> starts[k] < optionp && starts[k] + |ps[k]| <= optionp)
    && (forall j, k :: 0 <= j < k < |ps| ==> starts[j] < starts[k])
  }

  // and the string s is made of them and of the string left there.
  ghost predicate Remains(build: Build, mem: Chars, buf: Chars, start: nat, s: Chars,
                          ps: seq<Chars>, left: Chars, optionp: nat) {
    && |buf| == |mem|
    && start <= optionp && optionp + |left| == start + |s| < |mem|
    && Str(buf, optionp) == left
    && Pieces(build, s) == ps + Pieces(build, left)
    && Cut(build, s) == buf[start..optionp] + Cut(build, left)
    && buf[..start] == mem[..start] && buf[start + |s|..] == mem[start + |s|..]
  }

  lemma VisitedStep(buf: Chars, tokens: seq<Chars>, ps: seq<Chars>, found: seq<int>, starts: seq<nat>,
                    optionp: nat, n: nat, ret: int, next: nat, cut: Chars)
    requires optionp + n < |buf| && buf[optionp] != 0 && cut == buf[optionp + n := 0]
    requires Visited(buf, tokens, ps, found, starts, optionp)
    requires n <= |Str(buf, optionp)| && IsLookup(tokens, Name(Str(buf, optionp)[..n]), ret)
    requires next == if n < |Str(buf, optionp)| then optionp + n + 1 else optionp + n
    ensures Visited(cut, tokens, ps + [Str(buf, optionp)[..n]], found + [ret], starts + [optionp], next)
  {
    hide Str, IsLookup, Name, Holds;
    StrHolds(buf, optionp);
    HoldsPiece(buf, optionp, Str(buf, optionp), n, cut);
    forall k | 0 <= k < |ps|
      ensures Holds(cut, starts[k], ps[k])
    {
      HoldsStill(buf, starts[k], ps[k], optionp, n, cut);
    }
  }

  lemma HoldsPiece(buf: Chars, i: nat, s: Chars, n: nat, cut: Chars)
    requires Holds(buf, i, s) && n <= |s| && i + n < |buf| && buf[i] != 0 && cut == buf[i + n := 0]
    ensures s != [] && Holds(cut, i, s[..n])
  {
  }

  lemma HoldsStill(buf: Chars, i: nat, s: Chars, optionp: nat, n: nat, cut: Chars)
    requires Holds(buf, i, s) && i + |s| <= optionp
    requires optionp + n < |buf| && buf[optionp] != 0 && cut == buf[optionp + n := 0]
    ensures Holds(cut, i, s)
  {
  }

  lemma RemainsStep(build: Build, mem: Chars, buf: Chars, start: nat, s: Chars,
                    ps: seq<Chars>, left: Chars, optionp: nat, n: nat, next: nat, cut: Chars)
    requires optionp + |left| < |buf| && buf[optionp + |left|] == 0
    requires Remains(build, mem, buf, start, s, ps, left, optionp)
    requires left != [] && n == PieceLen(build, 0, left) && cut == buf[optionp + n := 0]
    requires next == if n < |left| then optionp + n + 1 else optionp + n
    ensures Remains(build, mem, cut, start, s, ps + [left[..n]], Rest(build, left), next)
    ensures |Rest(build, left)| < |left|
  {
    hide Str, Pieces, Cut, PieceLen, Holds, Rest;
    StrHolds(buf, optionp);
    FirstPiece(build, left);
    RestIs(build, left, n);
    CutString(buf, optionp, n, n, cut);
    AppendAssoc(ps, [left[..n]], Pieces(build, Rest(build, left)));
    CutSoFar(buf, start, optionp, left, n, next, cut);
    AppendAssoc(buf[start..optionp], left[..n] + (if n < |left| then [0] else []), Cut(build, Rest(build, left)));
    CutFrame(mem, buf, start, start + |s|, optionp + n, cut);
  }

  lemma RestIs(build: Build, left: Chars, n: nat)
    requires n == PieceLen(build, 0, left)
    ensures n <= |left| && Rest(build, left) == (if n < |left| then left[n + 1..] else left[n..n])
  {
  }

  lemma CutFrame(mem: Chars, buf: Chars, start: nat, end: nat, at: nat, cut: Chars)
    requires start <= at <= end < |buf| == |mem| && buf[..start] == mem[..start] && buf[end..] == mem[end..]
    requires cut == buf[at := 0] && buf[end] == 0
    ensures cut[..start] == mem[..start] && cut[end..] == mem[end..]
  {
  }

  lemma CutSoFar(buf: Chars, start: nat, optionp: nat, left: Chars, n: nat, next: nat, cut: Chars)
    requires start <= optionp && n <= |left| && optionp + |left| < |buf| && Holds(buf, optionp, left)
    requires cut == buf[optionp + n := 0] && next == if n < |left| then optionp + n + 1 else optionp + n
    ensures buf[start..optionp] + (left[..n] + (if n < |left| then [0] else [])) == cut[start..next]
  {
  }

  // The value pointers of all calls, and what is read through them: the value
  // of a known suboption, all of an unknown one, and no pointer for a known one
  // without a value.
  predicate Valued(ps: seq<Chars>, found: seq<int>, starts: seq<nat>, values: seq<Option<nat>>) {
    && |found| == |starts| == |values| == |ps|
    && forall k :: 0 <= k < |ps| ==> values[k] == ValueAt(found[k], starts[k], ps[k])
  }

  predicate Reads(buf: Chars, value: Option<nat>, ret: int, piece: Chars) {
    match value
    case Some(v) =>
      && v <= |buf|
      && if ret == -1 then Str(buf, v) == piece
         else NameLen(piece) < |piece| && Str(buf, v) == piece[NameLen(piece) + 1..]
    case None => ret != -1 && 0x3d !in piece
  }

  lemma ValuedStep(ps: seq<Chars>, found: seq<int>, starts: seq<nat>, values: seq<Option<nat>>,
                   piece: Chars, ret: int, i: nat)
    requires Valued(ps, found, starts, values)
    ensures Valued(ps + [piece], found + [ret], starts + [i], values + [ValueAt(ret, i, piece)])
  {
    hide ValueAt;
  }

  lemma ReadsValue(buf: Chars, ret: int, i: nat, piece: Chars)
    requires i <= |buf| && Str(buf, i) == piece
    ensures Reads(buf, ValueAt(ret, i, piece), ret, piece)
  {
    hide Str, NameLen;
    StrHolds(buf, i);
    if ret != -1 {
      var n := NameLen(piece);
      if n < |piece| {
        HoldsStr(buf, i + n + 1, piece[n + 1..]);
      } else {
        assert piece[..n] == piece;
      }
    }
  }

  // The usual loop of a caller, until the option pointer is at NUL.  It visits
  // exactly the pieces of the string; each of them is a string of its own
  // afterwards, its value is read where the value pointer says, and only
  // separating commas have changed.
  method Suboptions(build: Build, buf: array<bv8>, start: nat, tokens: seq<Chars>)
    returns (found: seq<int>, starts: seq<nat>, values: seq<Option<nat>>)
    requires HasNul(buf[..], start) && BuildFits(build, buf.Length)
    modifies buf
    ensures start + |Str(old(buf[..]), start)| < buf.Length
    ensures var s := Str(old(buf[..]), start);
            var ps := Pieces(build, s);
            && |found| == |starts| == |values| == |ps|
            && (forall k :: 0 <= k < |ps| ==> IsLookup(tokens, Name(ps[k]), found[k]))
            && (forall k :: 0 <= k < |ps| ==> starts[k] <= buf.Length && Str(buf[..], starts[k]) == ps[k])
            && (forall k :: 0 <= k < |ps| ==> Reads(buf[..], values[k], found[k], ps[k]))
            && (forall j, k :: 0 <= j < k < |ps| ==> starts[j] < starts[k])
            && buf[start..start + |s|] == Cut(build, s)
            && buf[..start] == old(buf[..start]) && buf[start + |s|..] == old(buf[start + |s|..])
  {
    hide *;
    found, starts, values := [], [], [];
    ghost var mem := buf[..];
    StrEnds(mem, start);
    ghost var s := Str(mem, start);
    ghost var ps: seq<Chars>, left := [], s;
    var optionp := start;
    Begin(build, mem, start, tokens);
    while buf[optionp] != 0
      invariant 0 <= optionp < buf.Length && HasNul(buf[..], optionp)
      invariant Visited(buf[..], tokens, ps, found, starts, optionp) && Valued(ps, found, starts, values)
      invariant Remains(build, mem, buf[..], start, s, ps, left, optionp)
      decreases |left|
    {
      ghost var before, n := buf[..], PieceLen(build, 0, left);
      RemainsLeft(build, mem, before, start, s, ps, left, optionp);
      var r := Getsubopt(build, buf, optionp, tokens, None);
      SuboptParts(build, left, optionp, tokens, r);
      VisitedStep(before, tokens, ps, found, starts, optionp, n, r.ret, r.optionp, buf[..]);
      ValuedStep(ps, found, starts, values, left[..n], r.ret, optionp);
      RemainsStep(build, mem, before, start, s, ps, left, optionp, n, r.optionp, buf[..]);
      ps, left := ps + [left[..n]], Rest(build, left);
      found, starts, values := found + [r.ret], starts + [optionp], values + [r.valuep];
      optionp := r.optionp;
    }
    Finish(build, mem, buf[..], start, s, tokens, ps, left, found, starts, optionp);
    FinishValues(buf[..], ps, found, starts, values);
  }

  lemma FinishValues(buf: Chars, ps: seq<Chars>, found: seq<int>, starts: seq<nat>, values: seq<Option<nat>>)
    requires Valued(ps, found, starts, values)
    requires forall k :: 0 <= k < |ps| ==> starts[k] <= |buf| && Str(buf, starts[k]) == ps[k]
    ensures |values| == |found| == |ps| && forall k :: 0 <= k < |ps| ==> Reads(buf, values[k], found[k], ps[k])
  {
    hide Reads, ValueAt, Str;
    forall k | 0 <= k < |ps| ensures Reads(buf, values[k], found[k], ps[k]) {
      ReadsValue(buf, found[k], starts[k], ps[k]);
    }
  }

  lemma Begin(build: Build, mem: Chars, start: nat, tokens: seq<Chars>)
    requires HasNul(mem, start)
    ensures start < |mem|
    ensures Visited(mem, tokens, [], [], [], start) && Valued([], [], [], [])
    ensures Remains(build, mem, mem, start, Str(mem, start), [], Str(mem, start), start)
  {
    StrEnds(mem, start);
    hide Str, Pieces, Cut;
    assert mem[start..start] == [];
  }

  lemma RemainsLeft(build: Build, mem: Chars, buf: Chars, start: nat, s: Chars,
                    ps: seq<Chars>, left: Chars, optionp: nat)
    requires Remains(build, mem, buf, start, s, ps, left, optionp) && optionp < |buf| && buf[optionp] != 0
    ensures left != [] && left == Str(buf, optionp) && optionp + |left| < |buf| && buf[optionp + |left|] == 0
    ensures PieceLen(build, 0, left) <= |left|
  {
    StrHolds(buf, optionp);
    StrStarts(buf, optionp);
    hide Pieces, Cut;
  }

  lemma SuboptParts(build: Build, s: Chars, i: nat, tokens: seq<Chars>, r: Subopt)
    requires s != [] && IsSubopt(build, s, i, tokens, r)
    ensures var n := PieceLen(build, 0, s);
            && IsLookup(tokens, Name(s[..n]), r.ret) && r.optionp == (if n < |s| then i + n + 1 else i + n)
            && r.valuep == ValueAt(r.ret, i, s[..n])
  {
  }

  lemma Finish(build: Build, mem: Chars, buf: Chars, start: nat, s: Chars, tokens: seq<Chars>,
               ps: seq<Chars>, left: Chars, found: seq<int>, starts: seq<nat>, optionp: nat)
    requires optionp < |buf| && buf[optionp] == 0
    requires Visited(buf, tokens, ps, found, starts, optionp)
    requires Remains(build, mem, buf, start, s, ps, left, optionp)
    ensures ps == Pieces(build, s) && start + |s| < |buf| == |mem|
    ensures |found| == |starts| == |ps|
    ensures forall k :: 0 <= k < |ps| ==> IsLookup(tokens, Name(ps[k]), found[k])
    ensures forall k :: 0 <= k < |ps| ==> starts[k] <= |buf| && Str(buf, starts[k]) == ps[k]
    ensures forall j, k :: 0 <= j < k < |ps| ==> starts[j] < starts[k]
    ensures buf[start..start + |s|] == Cut(build, s)
    ensures buf[..start] == mem[..start] && buf[start + |s|..] == mem[start + |s|..]
  {
    NoPieces(build);
    StrStarts(buf, optionp);
    hide Pieces, Cut, Str, IsLookup, Name;
    forall k | 0 <= k < |ps|
      ensures starts[k] <= |buf| && Str(buf, starts[k]) == ps[k]
    {
      HoldsStr(buf, starts[k], ps[k]);
    }
    assert ps + [] == ps;
    assert buf[start..optionp] + [] == buf[start..optionp];
  }

  lemma NoPieces(build: Build)
    ensures Pieces(build, []) == [] && Cut(build, []) == []
  {
  }
}
