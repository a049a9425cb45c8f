/** Octets, and the handful of ASCII codes that the modelled sources compare against. */
module Bytes {
  type Byte = b: int | 0 <= b < 256

  datatype Option<+T> = None | Some(value: T)

  const NUL: Byte := 0
  const LF: Byte := 10
  const CR: Byte := 13
  const SPACE: Byte := 32
  const DOLLAR: Byte := 36
  const PERCENT: Byte := 37
  const STAR: Byte := 42
  const PLUS: Byte := 43
  const MINUS: Byte := 45
  const DOT: Byte := 46
  const ZERO: Byte := 48
  const NINE: Byte := 57
  const COLON: Byte := 58
  const BACKSLASH: Byte := 92

  const CRLF: seq<Byte> := [CR, LF]

  /** The bytes of several blocks, one after the other. */
  function Concat<T>(blocks: seq<seq<T>>): seq<T> {
    if blocks == [] then [] else blocks[0] + Concat(blocks[1..])
  }

  lemma {:induction false} ConcatAppend<T>(a: seq<seq<T>>, b: seq<seq<T>>)
    ensures Concat(a + b) == Concat(a) + Concat(b)
  {
    if a == [] {
      assert a + b == b;
    } else {
      assert (a + b)[0] == a[0] && (a + b)[1..] == a[1..] + b;
      ConcatAppend(a[1..], b);
    }
  }

  lemma Assoc<T>(a: seq<T>, b: seq<T>, c: seq<T>)
    ensures a + b + c == a + (b + c)
  {
  }

  /** What has been produced so far and what remains to be produced make up the whole. */
  ghost predicate Completes<T>(soFar: seq<T>, rest: seq<T>, whole: seq<T>) {
    soFar + rest == whole
  }

  lemma CompletesStart<T>(whole: seq<T>)
    ensures Completes([], whole, whole)
  {
  }

  lemma CompletesMore<T>(soFar: seq<T>, piece: seq<T>, rest: seq<T>, whole: seq<T>)
    requires Completes(soFar, piece + rest, whole)
    ensures Completes(soFar + piece, rest, whole) && |soFar| + |piece| + |rest| == |whole|
  {
    Assoc(soFar, piece, rest);
  }

  lemma CompletesEnd<T>(soFar: seq<T>, whole: seq<T>)
    requires Completes(soFar, [], whole)
    ensures soFar == whole
  {
  }

  lemma CompletesTwo<T>(soFar: seq<T>, rest: seq<T>)
    ensures Completes(soFar, rest, soFar + rest)
  {
  }
}
