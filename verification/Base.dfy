// Types shared by the models of the byte-oriented code of v4l-utils.

module Base {

  type Byte = x: int | 0 <= x < 256

  const U32: nat := 0x1_0000_0000

  datatype Option<+T> = None | Some(value: T)

  lemma AppendAssoc<T>(a: seq<T>, b: seq<T>, c: seq<T>)
    ensures (a + b) + c == a + (b + c)
  {
  }

  // A run over a concatenation is a run over its parts; both splits of a
  // non-empty left part agree.
  lemma ConsAppend<T>(a: seq<T>, b: seq<T>)
    requires |a| > 0
    ensures (a + b)[0] == a[0] && (a + b)[1..] == a[1..] + b
  {
  }
}
