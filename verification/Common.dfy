/** Helpers shared by the modules. */
module Common {
  datatype Option<+T> = None | Some(value: T)

  type Byte = b: nat | b < 256

  function Min(a: nat, b: nat): nat
  {
    if a <= b then a else b
  }

  /** What 32 bits keep of a number. */
  function Low32(n: nat): (r: nat)
    ensures r < 0x1_0000_0000 && (n < 0x1_0000_0000 ==> r == n)
    ensures 0x1_0000_0000 <= n < 0x2_0000_0000 ==> r == n - 0x1_0000_0000
  {
    if n < 0x1_0000_0000 then n else Low32(n - 0x1_0000_0000)
  }

  ghost predicate NoDup(s: seq<nat>)
  {
    forall i: nat, j: nat | i < j < |s| :: s[i] != s[j]
  }
}
