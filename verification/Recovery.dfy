/** Which loss patterns the encoding matrix of rs_build_matrix can undo. */
module Recovery {
  import opened Bytes
  import opened GaloisField
  import opened LinearAlgebra
  import opened GaussJordan

  // ---------- the encoding matrix ----------

  /** The matrix entry of exponent s in column c; s = row - k + 1 for a repair row. */
  function Entry(s: nat, c: nat): bv8 {
    Pow((s * c) % 255)
  }

  function RepairRow(k: nat, s: nat): Vec {
    seq(k, c requires 0 <= c => Entry(s, c))
  }

  function MatrixRow(k: nat, row: nat): Vec {
    if row < k then UnitRow(k, row) else RepairRow(k, row - k + 1)
  }

  /** The decoding matrix picked by the first k received indices. */
  function Selected(k: nat, idx: seq<nat>): Matrix
    requires k <= |idx|
  {
    seq(k, i requires 0 <= i < k => MatrixRow(k, idx[i]))
  }

  lemma SelectedKernel(k: nat, idx: seq<nat>, x: Vec)
    requires k <= |idx| && |x| == k
    ensures InKernel(Selected(k, idx), k, x) <==> forall r :: r in idx[..k] ==> Dot(1, MatrixRow(k, r), x, k) == 0
  {
    var m := Selected(k, idx);
    if InKernel(m, k, x) {
      forall r | r in idx[..k]
        ensures Dot(1, MatrixRow(k, r), x, k) == 0
      {
        var i :| 0 <= i < k && idx[i] == r;
        assert Apply(1, m, x)[i] == Zeros(k)[i];
      }
    }
    if forall r :: r in idx[..k] ==> Dot(1, MatrixRow(k, r), x, k) == 0 {
      forall i | 0 <= i < k
        ensures Apply(1, m, x)[i] == 0
      {
        assert idx[..k][i] in idx[..k];
      }
      assert Apply(1, m, x) == Zeros(k);
    }
  }

  // ---------- rows in arithmetic progression ----------

  lemma EntryAdd(s: nat, d: nat, c: nat)
    ensures Mul(Entry(s, c), Entry(d, c)) == Entry(s + d, c)
  {
    PowMod(s * c);
    PowMod(d * c);
    MulPow(s * c, d * c);
    assert s * c + d * c == (s + d) * c;
    PowMod((s + d) * c);
  }

  lemma EntryNonzero(s: nat, c: nat)
    ensures Entry(s, c) != 0
  {
    PowNonzero((s * c) % 255);
  }

  /** x with column c weighted by the difference of its node Entry(d, c) and the node v. */
  ghost function Reweighted(x: Vec, d: nat, v: bv8): Vec {
    seq(|x|, c requires 0 <= c < |x| => Mul(x[c], Add(Entry(d, c), v)))
  }

  lemma ReweightedTerm(s: nat, d: nat, c: nat, xc: bv8, v: bv8)
    ensures Mul(Entry(s, c), Mul(xc, Add(Entry(d, c), v)))
         == Add(Mul(Entry(s + d, c), xc), Mul(v, Mul(Entry(s, c), xc)))
  {
    var a, p := Entry(s, c), Entry(d, c);
    MulAssoc(a, xc, Add(p, v));
    MulAdd(Mul(a, xc), p, v);
    MulBasics(Mul(a, xc), v);
    MulBasics(a, xc);
    MulAssoc(xc, a, p);
    MulBasics(xc, Mul(a, p));
    EntryAdd(s, d, c);
  }

  lemma {:induction false} DotReweighted(k: nat, s: nat, d: nat, x: Vec, v: bv8, n: nat)
    requires n <= k == |x|
    ensures Dot(1, RepairRow(k, s), Reweighted(x, d, v), n)
         == Add(Dot(1, RepairRow(k, s + d), x, n), Mul(v, Dot(1, RepairRow(k, s), x, n)))
  {
    hide TableMul, Add;
    if n == 0 {
      MulBasics(v, 0);
      AddBasics(0, 0);
    } else {
      var c := n - 1;
      DotReweighted(k, s, d, x, v, c);
      ReweightedTerm(s, d, c, x[c], v);
      var a := Entry(s, c);
      MulAdd(v, Dot(1, RepairRow(k, s), x, c), Mul(a, x[c]));
      AddSwap(Dot(1, RepairRow(k, s + d), x, c), Mul(v, Dot(1, RepairRow(k, s), x, c)),
              Mul(Entry(s + d, c), x[c]), Mul(v, Mul(a, x[c])));
    }
  }

  /** The rows s, s + d, ..., s + (e-1)d all annihilate x. */
  ghost predicate Annihilated(k: nat, x: Vec, s: nat, d: nat, e: nat)
    requires |x| == k
  {
    forall t: nat :: t < e ==> Dot(1, RepairRow(k, s + t * d), x, k) == 0
  }

  ghost predicate SupportedOn(x: Vec, cols: set<nat>) {
    forall c: nat :: c < |x| && c !in cols ==> x[c] == 0
  }

  lemma ReweightedAnnihilated(k: nat, x: Vec, s: nat, d: nat, e: nat, v: bv8)
    requires |x| == k && e > 0 && Annihilated(k, x, s, d, e)
    ensures Annihilated(k, Reweighted(x, d, v), s, d, e - 1)
  {
    forall t: nat | t < e - 1
      ensures Dot(1, RepairRow(k, s + t * d), Reweighted(x, d, v), k) == 0
    {
      NextTerm(s, d, t);
      DotReweighted(k, s + t * d, d, x, v, k);
      assert Dot(1, RepairRow(k, s + t * d), x, k) == 0;
      assert Dot(1, RepairRow(k, s + (t + 1) * d), x, k) == 0;
      MulBasics(v, 0);
    }
  }

  lemma NextTerm(s: nat, d: nat, t: nat)
    ensures s + t * d + d == s + (t + 1) * d
  {}

  /** If x, supported on cols, becomes zero once column p is cancelled and still meets the
      first row, then x was zero. */
  lemma CancelledColumn(k: nat, x: Vec, s: nat, d: nat, p: nat, cols: set<nat>)
    requires |x| == k && p < k && SupportedOn(x, cols)
    requires forall c :: c in cols && c != p ==> Entry(d, c) != Entry(d, p)
    requires Reweighted(x, d, Entry(d, p)) == Zeros(k)
    requires Dot(1, RepairRow(k, s), x, k) == 0
    ensures x == Zeros(k)
  {
    forall c: nat | c < k && c != p
      ensures x[c] == 0
    {
      if c in cols {
        assert Reweighted(x, d, Entry(d, p))[c] == Zeros(k)[c];
        AddZeroIff(Entry(d, c), Entry(d, p));
        MulBasics(x[c], Add(Entry(d, c), Entry(d, p)));
      }
    }
    DotSingle(RepairRow(k, s), x, k, p);
    EntryNonzero(s, p);
    MulBasics(Entry(s, p), x[p]);
  }

  lemma ReweightedSupport(x: Vec, d: nat, p: nat, cols: set<nat>)
    requires SupportedOn(x, cols)
    ensures SupportedOn(Reweighted(x, d, Entry(d, p)), cols - {p})
  {}

  /** A vector supported on `cols` and annihilated by |cols| rows in progression vanishes
      when the nodes of those columns are distinct: the Vandermonde argument, cancelling one
      node at a time. */
  lemma {:induction false} ProgressionKernel(k: nat, x: Vec, cols: set<nat>, s: nat, d: nat)
    requires |x| == k && SupportedOn(x, cols) && (forall c :: c in cols ==> c < k)
    requires forall c, c' :: c in cols && c' in cols && c != c' ==> Entry(d, c) != Entry(d, c')
    requires Annihilated(k, x, s, d, |cols|)
    ensures x == Zeros(k)
    decreases |cols|
  {
    if cols != {} {
      var p :| p in cols;
      ReweightedAnnihilated(k, x, s, d, |cols|, Entry(d, p));
      ReweightedSupport(x, d, p, cols);
      ProgressionKernel(k, Reweighted(x, d, Entry(d, p)), cols - {p}, s, d);
      assert s + 0 * d == s;
      assert Dot(1, RepairRow(k, s + 0 * d), x, k) == 0;
      CancelledColumn(k, x, s, d, p, cols);
    }
  }

  /** Two columns with equal nodes have proportional entries in every row of the progression;
      this vector cancels them. */
  ghost function Collision(k: nat, c: nat, c': nat, s: nat): Vec {
    AddScaled(1, ScaleRow(1, UnitRow(k, c), Entry(s, c')), UnitRow(k, c'), Entry(s, c))
  }

  lemma CollisionDot(k: nat, c: nat, c': nat, s: nat, row: Vec)
    requires c < k == |row| && c' < k
    ensures Dot(1, row, Collision(k, c, c', s), k)
         == Add(Mul(Entry(s, c'), row[c]), Mul(Entry(s, c), row[c']))
  {
    var alpha, beta := Entry(s, c'), Entry(s, c);
    DotComm(1, row, Collision(k, c, c', s), k);
    DotAddScaled(ScaleRow(1, UnitRow(k, c), alpha), UnitRow(k, c'), beta, row, k);
    DotScaleRow(UnitRow(k, c), alpha, row, k);
    DotUnit(k, c, row);
    DotUnit(k, c', row);
  }

  lemma {:induction false} EntryMultiples(d: nat, c: nat, c': nat, t: nat)
    requires Entry(d, c) == Entry(d, c')
    ensures Entry(t * d, c) == Entry(t * d, c')
  {
    if t > 0 {
      EntryMultiples(d, c, c', t - 1);
      NextTerm(0, d, t - 1);
      EntryAdd((t - 1) * d, d, c);
      EntryAdd((t - 1) * d, d, c');
    } else {
      assert t * d == 0;
    }
  }

  lemma CollisionKernel(k: nat, c: nat, c': nat, s: nat, d: nat, t: nat)
    requires c < k && c' < k && Entry(d, c) == Entry(d, c')
    ensures Dot(1, RepairRow(k, s + t * d), Collision(k, c, c', s), k) == 0
  {
    CollisionDot(k, c, c', s, RepairRow(k, s + t * d));
    EntryMultiples(d, c, c', t);
    CollisionCancels(s, t * d, c, c');
  }

  lemma CollisionAnnihilated(k: nat, c: nat, c': nat, s: nat, d: nat, e: nat)
    requires c < k && c' < k && Entry(d, c) == Entry(d, c')
    ensures Annihilated(k, Collision(k, c, c', s), s, d, e)
  {
    forall t: nat | t < e
      ensures Dot(1, RepairRow(k, s + t * d), Collision(k, c, c', s), k) == 0
    {
      CollisionKernel(k, c, c', s, d, t);
    }
  }

  lemma CollisionCancels(s: nat, u: nat, c: nat, c': nat)
    requires Entry(u, c) == Entry(u, c')
    ensures Add(Mul(Entry(s, c'), Entry(s + u, c)), Mul(Entry(s, c), Entry(s + u, c'))) == 0
  {
    EntryAdd(s, u, c);
    EntryAdd(s, u, c');
    var a, b, v := Entry(s, c), Entry(s, c'), Entry(u, c);
    MulAssoc(b, a, v);
    MulAssoc(a, b, v);
    MulBasics(a, b);
    AddBasics(Mul(b, Mul(a, v)), 0);
  }

  // ---------- the exact criterion ----------

  /** The first k received symbols are, in any order, the source symbols outside `lost` and
      the |lost| repair symbols first, first + d, first + 2d, ... */
  ghost predicate Received(k: nat, idx: seq<nat>, lost: set<nat>, first: nat, d: nat) {
    k <= |idx| && k <= first && (forall c :: c in lost ==> c < k) &&
    forall r: nat :: r in idx[..k] <==>
      (r < k && r !in lost) || exists t: nat :: t < |lost| && r == first + t * d
  }

  /** Some two lost columns get the same node, so the progression cannot tell them apart. */
  ghost predicate Ambiguous(lost: set<nat>, d: nat) {
    exists c, c' :: c in lost && c' in lost && c < c' && (d * (c' - c)) % 255 == 0
  }

  lemma NodesEqual(d: nat, c: nat, c': nat)
    requires c <= c'
    ensures Entry(d, c) == Entry(d, c') <==> (d * (c' - c)) % 255 == 0
  {
    PowMod(d * c);
    PowMod(d * c');
    PowEqual(d * c, d * c');
    assert d * c' == d * c + d * (c' - c);
    SameRemainder(d * c, d * (c' - c));
  }

  lemma SameRemainder(a: nat, b: nat)
    ensures a % 255 == (a + b) % 255 <==> b % 255 == 0
  {
    SumMod(a, b);
  }

  lemma ReceivedKernel(k: nat, idx: seq<nat>, lost: set<nat>, first: nat, d: nat, x: Vec)
    requires Received(k, idx, lost, first, d) && |x| == k
    ensures InKernel(Selected(k, idx), k, x)
        <==> SupportedOn(x, lost) && Annihilated(k, x, first - k + 1, d, |lost|)
  {
    SelectedKernel(k, idx, x);
    if InKernel(Selected(k, idx), k, x) {
      KernelIsSupported(k, idx, lost, first, d, x);
    }
    if SupportedOn(x, lost) && Annihilated(k, x, first - k + 1, d, |lost|) {
      SupportedIsKernel(k, idx, lost, first, d, x);
    }
  }

  lemma KernelIsSupported(k: nat, idx: seq<nat>, lost: set<nat>, first: nat, d: nat, x: Vec)
    requires Received(k, idx, lost, first, d) && |x| == k
    requires forall r :: r in idx[..k] ==> Dot(1, MatrixRow(k, r), x, k) == 0
    ensures SupportedOn(x, lost) && Annihilated(k, x, first - k + 1, d, |lost|)
  {
    forall c: nat | c < k && c !in lost
      ensures x[c] == 0
    {
      assert c in idx[..k];
      DotUnit(k, c, x);
    }
    forall t: nat | t < |lost|
      ensures Dot(1, RepairRow(k, first - k + 1 + t * d), x, k) == 0
    {
      assert first + t * d in idx[..k];
      RepairAt(k, first, d, t);
    }
  }

  lemma SupportedIsKernel(k: nat, idx: seq<nat>, lost: set<nat>, first: nat, d: nat, x: Vec)
    requires Received(k, idx, lost, first, d) && |x| == k
    requires SupportedOn(x, lost) && Annihilated(k, x, first - k + 1, d, |lost|)
    ensures forall r :: r in idx[..k] ==> Dot(1, MatrixRow(k, r), x, k) == 0
  {
    hide Dot;
    forall r | r in idx[..k]
      ensures Dot(1, MatrixRow(k, r), x, k) == 0
    {
      if r < k && r !in lost {
        DotUnit(k, r, x);
      } else {
        var t: nat :| t < |lost| && r == first + t * d;
        RepairAt(k, first, d, t);
      }
    }
  }

  lemma RepairAt(k: nat, first: nat, d: nat, t: nat)
    requires k <= first
    ensures MatrixRow(k, first + t * d) == RepairRow(k, first - k + 1 + t * d)
  {}

  lemma UnambiguousRecovers(k: nat, idx: seq<nat>, lost: set<nat>, first: nat, d: nat)
    requires Received(k, idx, lost, first, d) && !Ambiguous(lost, d)
    ensures !Singular(Selected(k, idx), k)
  {
    forall x | InKernel(Selected(k, idx), k, x)
      ensures x == Zeros(k)
    {
      ReceivedKernel(k, idx, lost, first, d, x);
      forall c, c' | c in lost && c' in lost && c != c'
        ensures Entry(d, c) != Entry(d, c')
      {
        if c < c' { NodesEqual(d, c, c'); } else { NodesEqual(d, c', c); }
      }
      ProgressionKernel(k, x, lost, first - k + 1, d);
    }
  }

  lemma CollisionEntries(k: nat, c: nat, c': nat, s: nat, cols: set<nat>)
    requires c < k && c' < k && c != c' && c in cols && c' in cols
    ensures |Collision(k, c, c', s)| == k && Collision(k, c, c', s) != Zeros(k)
    ensures SupportedOn(Collision(k, c, c', s), cols)
  {
    var x := Collision(k, c, c', s);
    MulBasics(1, Entry(s, c'));
    MulBasics(Entry(s, c'), 1);
    MulBasics(0, Entry(s, c));
    EntryNonzero(s, c');
    AddBasics(Entry(s, c'), 0);
    assert x[c] == Entry(s, c') != Zeros(k)[c];
    forall t: nat | t < k && t != c && t != c'
      ensures x[t] == 0
    {
      MulBasics(0, Entry(s, c'));
      AddBasics(0, 0);
    }
  }

  lemma EqualNodesFail(k: nat, idx: seq<nat>, lost: set<nat>, first: nat, d: nat, c: nat, c': nat)
    requires Received(k, idx, lost, first, d) && c in lost && c' in lost && c != c'
    requires Entry(d, c) == Entry(d, c')
    ensures Singular(Selected(k, idx), k)
  {
    var s := first - k + 1;
    var x := Collision(k, c, c', s);
    CollisionEntries(k, c, c', s, lost);
    CollisionAnnihilated(k, c, c', s, d, |lost|);
    ReceivedKernel(k, idx, lost, first, d, x);
  }

  lemma AmbiguousFails(k: nat, idx: seq<nat>, lost: set<nat>, first: nat, d: nat)
    requires Received(k, idx, lost, first, d) && Ambiguous(lost, d)
    ensures Singular(Selected(k, idx), k)
  {
    var c, c' :| c in lost && c' in lost && c < c' && (d * (c' - c)) % 255 == 0;
    NodesEqual(d, c, c');
    EqualNodesFail(k, idx, lost, first, d, c, c');
  }

  /** Exact criterion: with the lost columns replaced by repair rows in progression of step
      d, the decoding matrix is singular iff 255 divides d*(c'-c) for two lost columns. */
  lemma ProgressionExact(k: nat, idx: seq<nat>, lost: set<nat>, first: nat, d: nat)
    requires Received(k, idx, lost, first, d)
    ensures Singular(Selected(k, idx), k) <==> Ambiguous(lost, d)
  {
    if Ambiguous(lost, d) {
      AmbiguousFails(k, idx, lost, first, d);
    } else {
      UnambiguousRecovers(k, idx, lost, first, d);
    }
  }

  /** Consecutive repair symbols recover every loss pattern of a legal code. */
  lemma ConsecutiveRecovers(k: nat, idx: seq<nat>, lost: set<nat>, first: nat)
    requires Received(k, idx, lost, first, 1) && k <= 255
    ensures !Singular(Selected(k, idx), k)
  {
    ProgressionExact(k, idx, lost, first, 1);
  }

  /** Two losses c1 < c2 repaired by rows r1 <= r2: singular iff 255 divides the product
      of the differences. */
  lemma TwoLossExact(k: nat, idx: seq<nat>, c1: nat, c2: nat, r1: nat, r2: nat)
    requires k <= |idx| && c1 < c2 < k <= r1 <= r2
    requires forall r: nat :: r in idx[..k] <==> (r < k && r != c1 && r != c2) || r == r1 || r == r2
    ensures Singular(Selected(k, idx), k) <==> ((r2 - r1) * (c2 - c1)) % 255 == 0
  {
    var lost, d := {c1, c2}, r2 - r1;
    assert r1 + 0 * d == r1 && r1 + 1 * d == r2;
    ProgressionExact(k, idx, lost, r1, d);
  }

  /** "Any K of the N symbols" is false: with k = 86, losing columns 0 and 85 and holding
      the repair symbols 86 and 89 is not enough, whatever the order of arrival. */
  lemma AnyKOfNFails(idx: seq<nat>)
    requires |idx| >= 86
    requires forall r: nat :: r in idx[..86] <==> (r < 86 && r != 0 && r != 85) || r == 86 || r == 89
    ensures Singular(Selected(86, idx), 86)
  {
    TwoLossExact(86, idx, 0, 85, 86, 89);
  }
}
