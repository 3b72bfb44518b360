/** Bytes and the few sequence operations that the whole model shares. */
module Bytes {

  type Byte = b: int | 0 <= b < 256

  datatype Option<+T> = None | Some(value: T)

  function Min(a: nat, b: nat): nat {
    if a < b then a else b
  }

  function Max(a: nat, b: nat): nat {
    if a < b then b else a
  }

  /** `base` with `data` laid over it from offset `at`. */
  function Overlay(base: seq<Byte>, at: nat, data: seq<Byte>): (s: seq<Byte>)
    requires at + |data| <= |base|
    ensures |s| == |base|
    ensures forall i :: 0 <= i < |s| ==> s[i] == if at <= i < at + |data| then data[i - at] else base[i]
  {
    base[..at] + data + base[at + |data|..]
  }

  /** Laying a run of bytes piece by piece is laying it at once. */
  lemma OverlaySteps(base: seq<Byte>, at: nat, data: seq<Byte>, done: nat, more: nat)
    requires at + |data| <= |base|
    requires done + more <= |data|
    ensures Overlay(Overlay(base, at, data[..done]), at + done, data[done..done + more])
         == Overlay(base, at, data[..done + more])
  {
  }

  /** `n` bytes of `pattern` repeated from its first byte. */
  function Cycle(pattern: seq<Byte>, n: nat): (s: seq<Byte>)
    requires |pattern| > 0
    ensures |s| == n
    ensures forall i :: 0 <= i < n ==> s[i] == pattern[i % |pattern|]
  {
    seq(n, i requires 0 <= i < n => pattern[i % |pattern|])
  }

  ghost predicate AllEqual(s: seq<Byte>, b: Byte) {
    forall i :: 0 <= i < |s| ==> s[i] == b
  }

  lemma AppendAssociates<T>(a: seq<T>, b: seq<T>, c: seq<T>)
    ensures a + b + c == a + (b + c)
  {
  }
}
