/** Little-endian integers over byte sequences. */
module LittleEndian {
  import opened Primitives

  function Pow256(n: nat): (r: nat)
    ensures r > 0
  {
    if n == 0 then 1 else 256 * Pow256(n - 1)
  }

  function Digit(v: nat, i: nat): u8 {
    if i == 0 then v % 256 else Digit(v / 256, i - 1)
  }

  function PutLE(v: nat, n: nat): (r: seq<u8>)
    ensures |r| == n
  {
    seq(n, i requires 0 <= i => Digit(v, i))
  }

  function GetFrom(s: seq<u8>, i: nat): nat
    requires i <= |s|
    decreases |s| - i
  {
    if i == |s| then 0 else s[i] + 256 * GetFrom(s, i + 1)
  }

  function GetLE(s: seq<u8>): nat {
    GetFrom(s, 0)
  }

  lemma {:induction false} GetFromTail(s: seq<u8>, i: nat)
    requires 0 < i <= |s|
    ensures GetFrom(s, i) == GetFrom(s[1..], i - 1)
    decreases |s| - i
  {
    if i < |s| {
      GetFromTail(s, i + 1);
    }
  }

  /** The first byte is the least significant one. */
  lemma LeastFirst(s: seq<u8>)
    requires s != []
    ensures GetLE(s) == s[0] + 256 * GetLE(s[1..])
  {
    GetFromTail(s, 1);
  }

  lemma {:induction false} GetFromBound(s: seq<u8>, i: nat)
    requires i <= |s|
    ensures GetFrom(s, i) < Pow256(|s| - i)
    decreases |s| - i
  {
    if i < |s| {
      GetFromBound(s, i + 1);
    }
  }

  lemma GetBound(s: seq<u8>, n: nat)
    requires |s| == n
    ensures GetLE(s) < Pow256(n)
  {
    GetFromBound(s, 0);
  }

  /** Dropping the low `i` digits of `v`. */
  function Shifted(v: nat, i: nat): nat {
    if i == 0 then v else Shifted(v / 256, i - 1)
  }

  lemma {:induction false} ShiftStep(v: nat, i: nat)
    ensures Shifted(v, i + 1) == Shifted(v, i) / 256
    ensures Digit(v, i) == Shifted(v, i) % 256
  {
    if i > 0 {
      ShiftStep(v / 256, i - 1);
    }
  }

  lemma {:induction false} ShiftedOut(v: nat, n: nat)
    requires v < Pow256(n)
    ensures Shifted(v, n) == 0
  {
    if n > 0 {
      ShiftedOut(v / 256, n - 1);
    }
  }

  lemma {:induction false} GetPutFrom(v: nat, n: nat, i: nat)
    requires i <= n && Shifted(v, n) == 0
    ensures GetFrom(PutLE(v, n), i) == Shifted(v, i)
    decreases n - i
  {
    if i < n {
      GetPutFrom(v, n, i + 1);
      ShiftStep(v, i);
    }
  }

  lemma GetPut(v: nat, n: nat)
    requires v < Pow256(n)
    ensures GetLE(PutLE(v, n)) == v
  {
    ShiftedOut(v, n);
    GetPutFrom(v, n, 0);
  }

  lemma Widths()
    ensures Pow256(2) == 0x1_0000 && Pow256(4) == 0x1_0000_0000
    ensures Pow256(8) == 0x1_0000_0000_0000_0000
    ensures Pow256(16) == 0x1_0000_0000_0000_0000_0000_0000_0000_0000
  {
  }
}
