/** Helpers shared by several modules. */
module Wrappers {
  datatype Option<+T> = None | Some(value: T)

  /** A variable that a caller hands over by its address. */
  class Ref<T> {
    var value: T

    constructor (value: T)
      ensures this.value == value
    {
      this.value := value;
    }
  }

  // ---- The machine's integers ----

  const U32 := 0x1_0000_0000

  type byte = x: int | 0 <= x < 0x100

  type word = x: int | 0 <= x < 0x10000

  type u32 = x: int | 0 <= x < U32

  /** Unsigned 32-bit subtraction of two clock readings. */
  function Elapsed(now: u32, since: u32): u32 { (now - since) % U32 }

  function Min(a: int, b: int): int { if a < b then a else b }

  // ---- Collections ----

  /** The indices below n. */
  function Below(n: nat): (s: set<nat>)
    ensures |s| == n && forall i: nat :: i in s <==> i < n
  {
    if n == 0 then {} else Below(n - 1) + {n - 1}
  }

  ghost predicate Distinct<T>(s: seq<T>) { forall i, j :: 0 <= i < j < |s| ==> s[i] != s[j] }

  function Concat<T>(pieces: seq<seq<T>>): seq<T> {
    if pieces == [] then [] else pieces[0] + Concat(pieces[1..])
  }
}
