/** Bytes as numbers: the little-endian loads and stores behind every memcpy of an integer. */
module Bytes {

  type Bytes = seq<bv8>

  function Num(a: bv8): int {
    a as int
  }

  lemma NumFacts(a: bv8, b: bv8)
    ensures Num(a) == Num(b) <==> a == b
    ensures 0 <= Num(a) <= 255 && (a != 0 ==> Num(a) >= 1)
  {
    assert (a as int) as bv8 == a && (b as int) as bv8 == b;
  }

  function ByteOf(x: nat): bv8 {
    (x % 256) as bv8
  }

  lemma NextByte(b: bv8)
    requires b != 0xFF
    ensures (b + 1) as int == b as int + 1
  {}

  lemma {:induction false} ByteWithNumber(v: int) returns (b: bv8)
    requires 0 <= v < 256
    ensures b as int == v
  {
    if v == 0 {
      b := 0;
    } else {
      var c := ByteWithNumber(v - 1);
      assert c != 0xFF;
      NextByte(c);
      b := c + 1;
    }
  }

  lemma NumberFits(v: int)
    requires 0 <= v < 256
    ensures (v as bv8) as int == v
  {
    var b := ByteWithNumber(v);
    assert (b as int) as bv8 == b;
  }

  lemma ByteOfFacts(x: nat)
    ensures Num(ByteOf(x)) == x % 256
  {
    NumberFits(x % 256);
  }

  function Pow256(n: nat): nat {
    if n == 0 then 1 else 256 * Pow256(n - 1)
  }

  function LoadLE(s: Bytes): (x: nat)
    ensures x < Pow256(|s|)
  {
    if s == [] then 0 else
      NumFacts(s[0], 0);
      Num(s[0]) + 256 * LoadLE(s[1..])
  }

  function StoreLE(x: nat, n: nat): (s: Bytes)
    ensures |s| == n
    decreases n
  {
    if n == 0 then [] else [ByteOf(x)] + StoreLE(x / 256, n - 1)
  }

  lemma StoreUnfold(x: nat, n: nat)
    requires n > 0
    ensures StoreLE(x, n) == [ByteOf(x)] + StoreLE(x / 256, n - 1) && StoreLE(x, 0) == []
  {
    hide ByteOf;
  }

  lemma {:induction false} LoadStore(x: nat, n: nat)
    requires x < Pow256(n)
    ensures LoadLE(StoreLE(x, n)) == x
    decreases n
  {
    if n > 0 {
      ByteOfFacts(x);
      LoadStore(x / 256, n - 1);
      assert StoreLE(x, n)[1..] == StoreLE(x / 256, n - 1);
    }
  }

  lemma {:induction false} StoreLoad(s: Bytes)
    ensures StoreLE(LoadLE(s), |s|) == s
  {
    hide Num, ByteOf;
    if s != [] {
      var x := LoadLE(s);
      NumFacts(s[0], 0);
      assert x % 256 == Num(s[0]) && x / 256 == LoadLE(s[1..]);
      ByteOfFacts(x);
      NumFacts(ByteOf(x), s[0]);
      StoreLoad(s[1..]);
    }
  }

  lemma Carry256(digit: int, rest: int, p: int, x: int)
    ensures digit + 256 * (rest + p * x) == digit + 256 * rest + (256 * p) * x
  {}

  lemma {:induction false} LoadAppend(a: Bytes, b: Bytes)
    ensures LoadLE(a + b) == LoadLE(a) + Pow256(|a|) * LoadLE(b)
  {
    hide Num;
    if a == [] {
      assert a + b == b;
    } else {
      LoadAppend(a[1..], b);
      assert (a + b)[1..] == a[1..] + b;
      Carry256(Num(a[0]), LoadLE(a[1..]), Pow256(|a| - 1), LoadLE(b));
    }
  }

  function Zeros(n: nat): Bytes {
    seq(n, _ => 0)
  }

  lemma {:induction false} LoadZeros(n: nat)
    ensures LoadLE(Zeros(n)) == 0
  {
    if n > 0 {
      assert Zeros(n)[1..] == Zeros(n - 1);
      LoadZeros(n - 1);
    }
  }

  lemma LoadPadded(s: Bytes, n: nat)
    ensures LoadLE(s + Zeros(n)) == LoadLE(s)
  {
    hide LoadLE, Pow256;
    LoadAppend(s, Zeros(n));
    LoadZeros(n);
    assert Pow256(|s|) * 0 == 0;
  }

  lemma {:induction false} PowAdd256(m: nat, n: nat)
    ensures Pow256(m + n) == Pow256(m) * Pow256(n)
  {
    if m > 0 {
      PowAdd256(m - 1, n);
    }
  }

  /** memcpy into out + at. */
  method CopyInto(out: array<bv8>, at: nat, bytes: Bytes)
    requires at + |bytes| <= out.Length
    modifies out
    ensures out[at..at + |bytes|] == bytes
    ensures forall i :: 0 <= i < out.Length && !(at <= i < at + |bytes|) ==> out[i] == old(out[i])
  {
    forall i | 0 <= i < |bytes| {
      out[at + i] := bytes[i];
    }
    assert forall i :: 0 <= i < |bytes| ==> out[at + i] == bytes[i];
  }
}
