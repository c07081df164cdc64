/** The global exp/log tables of reed_solomon_fec.h and the operations that read them. */
module GaloisTables {
  import opened Bytes
  import opened GaloisField

  function Wide(a: bv8): bv16 {
    a as bv16
  }

  /** One turn of the table loop on the wider counter: shift, then reduce by 0x11D. */
  function NextWide(x: bv16): bv16 {
    var y := x << 1;
    if y & 0x100 != 0 then y ^ 0x11D else y
  }

  lemma NextWideIsXtime(a: bv8)
    ensures NextWide(Wide(a)) == Wide(Xtime(a))
  {}

  lemma WideFacts(a: bv8)
    ensures Wide(a) < 0x100 && Wide(a) as bv8 == a
  {}

  /** The part of the exp table written by the first n turns of the loop. */
  ghost predicate ExpFilled(e: seq<bv8>, n: nat) {
    |e| == 512 && n <= 255 &&
    (forall j :: 0 <= j < n ==> e[j] == Pow(j)) && (forall j :: 255 <= j < 255 + n ==> e[j] == Pow(j))
  }

  ghost predicate LogFilled(l: seq<int>, n: nat) {
    |l| == 256 && n <= 255 && forall j: nat :: j < n ==> 0 <= Num(Pow(j)) < 256 && l[Num(Pow(j))] == j
  }

  lemma ExpStep(e: seq<bv8>, n: nat)
    requires ExpFilled(e, n) && n < 255
    ensures ExpFilled(e[n := Pow(n)][n + 255 := Pow(n)], n + 1)
  {
    PowEqual(n, n + 255);
  }

  lemma LogStep(l: seq<int>, n: nat)
    requires LogFilled(l, n) && n < 255
    ensures 1 <= Num(Pow(n)) <= 255 && LogFilled(l[Num(Pow(n)) := n], n + 1)
  {
    PowersFresh(n);
  }

  lemma LogComplete(l: seq<int>)
    requires LogFilled(l, 255)
    ensures forall a: bv8 :: a != 0 ==> 1 <= Num(a) < 256 && l[Num(a)] == Log(a)
  {}

  class Tables {
    var gfExp: array<bv8>
    var gfLog: array<int>
    var initialized: bool
    ghost var entry: bv8  // what line 46 stores in gfExp[255]

    constructor ()
      ensures !initialized && gfExp.Length == 512 && gfLog.Length == 256
      ensures fresh(gfExp) && fresh(gfLog)
    {
      gfExp := new bv8[512](_ => 0);
      gfLog := new int[256](_ => 0);
      initialized := false;
    }

    ghost predicate Valid()
      reads this, gfExp, gfLog
    {
      && initialized && gfExp.Length == 512 && gfLog.Length == 256
      && (forall i :: 0 <= i < 510 ==> gfExp[i] == TableExp(entry, i))
      && (forall a: bv8 :: a != 0 ==> 0 <= Num(a) < 256 && gfLog[Num(a)] == Log(a))
      && gfLog[0] == 0
    }

    /** dst is not one of the tables. */
    ghost predicate Apart(dst: array<bv8>)
      reads this
    {
      dst != gfExp && dst as object != gfLog as object
    }

    /** The three table writes of one turn of the loop. */
    method FillTurn(i: nat, x: bv8)
      requires i < 255 && x == Pow(i) && ExpFilled(gfExp[..], i) && LogFilled(gfLog[..], i)
      modifies gfExp, gfLog
      ensures ExpFilled(gfExp[..], i + 1) && LogFilled(gfLog[..], i + 1)
    {
      ExpStep(gfExp[..], i);
      LogStep(gfLog[..], i);
      gfExp[i] := x;
      gfExp[i + 255] := x;
      gfLog[Num(x)] := i;
      assert gfExp[..] == old(gfExp[..])[i := x][i + 255 := x];
      assert gfLog[..] == old(gfLog[..])[Num(x) := i];
    }

    /** gf_init.  `stored` is the constant of line 46: the source has 0, the field needs 1. */
    method Init(stored: bv8)
      requires gfExp.Length == 512 && gfLog.Length == 256
      requires initialized ==> Valid()
      modifies this, gfExp, gfLog
      ensures Valid() && gfExp == old(gfExp) && gfLog == old(gfLog)
      ensures entry == if old(initialized) then old(entry) else stored
    {
      if initialized {
        return;
      }
      var x: bv16 := 1;
      for i := 0 to 255
        invariant gfExp == old(gfExp) && gfLog == old(gfLog)
        invariant x == Wide(Pow(i))
        invariant ExpFilled(gfExp[..], i) && LogFilled(gfLog[..], i)
      {
        WideFacts(Pow(i));
        NextWideIsXtime(Pow(i));
        FillTurn(i, x as bv8);
        x := NextWide(x);
      }
      LogComplete(gfLog[..]);
      gfExp[255] := stored;
      gfLog[0] := 0;
      initialized := true;
      entry := stored;
    }

    method Mul(a: bv8, b: bv8) returns (r: bv8)
      requires Valid()
      ensures r == TableMul(entry, a, b)
    {
      if a == 0 || b == 0 {
        return 0;
      }
      r := gfExp[gfLog[Num(a)] + gfLog[Num(b)]];
    }

    method Div(a: bv8, b: bv8) returns (r: bv8)
      requires Valid()
      ensures r == TableDiv(entry, a, b)
    {
      if a == 0 || b == 0 {
        return 0;
      }
      r := gfExp[gfLog[Num(a)] + 255 - gfLog[Num(b)]];
    }

    method Inv(a: bv8) returns (r: bv8)
      requires Valid()
      ensures r == TableInv(entry, a)
    {
      if a == 0 {
        return 0;
      }
      r := gfExp[255 - gfLog[Num(a)]];
    }

    /** The term that the general path of gf_mul_xor_region adds for one source byte. */
    function Term(logC: nat, s: bv8): (r: bv8)
      requires Valid() && logC < 255
      reads this, gfExp, gfLog
      ensures r == TableMul(entry, Pow(logC), s)
    {
      LogPow(logC);
      if s != 0 then gfExp[gfLog[Num(s)] + logC] else 0
    }

    /** gf_mul_xor_region: dst gains c times src, by three different paths. */
    method MulXorRegion(dst: array<bv8>, src: seq<bv8>, c: bv8, len: nat)
      requires Valid() && Apart(dst) && len <= dst.Length && len <= |src|
      modifies dst
      ensures forall i :: 0 <= i < len ==> dst[i] == Add(old(dst[i]), TableMul(entry, c, src[i]))
      ensures forall i :: len <= i < dst.Length ==> dst[i] == old(dst[i])
    {
      hide TableMul, Add, Pow;
      if c == 0 {
        forall i | 0 <= i < len
          ensures dst[i] == Add(dst[i], TableMul(entry, c, src[i]))
        {
          TableMulZero(entry, src[i]);
          AddBasics(dst[i], 0);
        }
      } else if c == 1 {
        for i := 0 to len
          invariant forall j :: 0 <= j < i ==> dst[j] == Add(old(dst[j]), TableMul(entry, c, src[j]))
          invariant forall j :: i <= j < dst.Length ==> dst[j] == old(dst[j])
        {
          TableMulOne(entry, src[i]);
          dst[i] := Add(dst[i], src[i]);
        }
      } else {
        var logC := gfLog[Num(c)];
        assert logC == Log(c);
        for i := 0 to len
          invariant Valid()
          invariant forall j :: 0 <= j < i ==> dst[j] == Add(old(dst[j]), TableMul(entry, c, src[j]))
          invariant forall j :: i <= j < dst.Length ==> dst[j] == old(dst[j])
        {
          if src[i] != 0 {
            dst[i] := Add(dst[i], Term(logC, src[i]));
          } else {
            TableMulZero(entry, c);
            AddBasics(dst[i], 0);
          }
        }
      }
    }
  }
}
