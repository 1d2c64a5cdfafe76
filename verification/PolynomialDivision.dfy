/**
 Division of polynomials over GF(2), written as strings of coefficients with the
 highest power first. This is the form in which clause 3.2.9 of IEEE 802.3-2018
 defines the frame check sequence; nothing here mentions registers or tables.
 */
module PolynomialDivision {

  type Bits = seq<bool>

  function Xor(x: Bits, y: Bits): (z: Bits)
    requires |x| == |y|
    ensures |z| == |x|
  {
    seq(|x|, i requires 0 <= i < |x| => x[i] != y[i])
  }

  function Complement(x: Bits): (z: Bits)
    ensures |z| == |x|
  {
    seq(|x|, i requires 0 <= i < |x| => !x[i])
  }

  function Zeros(n: nat): (z: Bits)
    ensures |z| == n
  {
    seq(n, _ => false)
  }

  /** `x` with `y` added to its leading coefficients. */
  function AddFront(x: Bits, y: Bits): (z: Bits)
    requires |y| <= |x|
    ensures |z| == |x|
  {
    Xor(x[..|y|], y) + x[|y|..]
  }

  /** The remainder of `dividend` by the generator x^n + `low`, where n == |low|. */
  function Remainder(dividend: Bits, low: Bits): (r: Bits)
    requires |dividend| >= |low|
    ensures |r| == |low|
    decreases |dividend|
  {
    if |dividend| == |low| then dividend
    else Remainder(Reduce(dividend, low), low)
  }

  /** One row of the long division: cancels the leading coefficient. */
  function Reduce(dividend: Bits, low: Bits): (r: Bits)
    requires |dividend| > |low|
    ensures |r| == |dividend| - 1
  {
    if dividend[0] then AddFront(dividend[1..], low) else dividend[1..]
  }

  /** A row of a dividend whose leading coefficients are `z` plus a shift register `r`:
      the register moves up by one, and takes in the generator if a 1 left it. */
  lemma ReduceRegister(z: Bits, bit: bool, r: Bits, h: Bits, low: Bits)
    requires |r| == |low| > 0 && |z| >= |low| && h == r[1..] + [false]
    ensures Reduce(AddFront([bit] + z, r), low) == AddFront(z, if r[0] != bit then Xor(h, low) else h)
  {
    var u := AddFront([bit] + z, r);
    var w := AddFront(z, if r[0] != bit then Xor(h, low) else h);
    assert u[0] == (r[0] != bit);
    forall i | 0 <= i < |z|
      ensures Reduce(u, low)[i] == w[i]
    {
      ReduceAt(u, low, i);
      assert u[i + 1] == if i + 1 < |r| then z[i] != r[i + 1] else z[i];
    }
  }

  lemma ReduceAt(u: Bits, low: Bits, i: nat)
    requires |u| > |low| && i < |u| - 1
    ensures Reduce(u, low)[i] == if u[0] && i < |low| then u[i + 1] != low[i] else u[i + 1]
  {
  }

  ghost predicate AgreeOutside(u: Bits, v: Bits, lo: nat, hi: nat) {
    |u| == |v| && forall i :: 0 <= i < |u| && !(lo <= i < hi) ==> u[i] == v[i]
  }

  /** Rows with the same leading coefficient keep their differences, one place further up. */
  lemma ReduceAgreement(u: Bits, v: Bits, low: Bits, lo: nat, hi: nat)
    requires |u| == |v| > |low| && u[0] == v[0] && AgreeOutside(u, v, lo, hi)
    ensures AgreeOutside(Reduce(u, low), Reduce(v, low), if lo > 0 then lo - 1 else 0, if hi > 0 then hi - 1 else 0)
    ensures Reduce(u, low) == Reduce(v, low) ==> u == v
  {
    forall i | 0 <= i < |u| - 1
      ensures Reduce(u, low)[i] == Reduce(v, low)[i] <==> u[i + 1] == v[i + 1]
    {
      ReduceAt(u, low, i);
      ReduceAt(v, low, i);
    }
    if Reduce(u, low) == Reduce(v, low) {
      forall i | 0 <= i < |u|
        ensures u[i] == v[i]
      {
        assert i > 0 ==> Reduce(u, low)[i - 1] == Reduce(v, low)[i - 1];
      }
    }
  }

  /** Rows with different leading coefficients go on to differ where the generator ends. */
  lemma ReduceDifference(u: Bits, v: Bits, low: Bits)
    requires |u| == |v| > |low| > 0 && low[|low| - 1]
    requires u[0] != v[0] && AgreeOutside(u, v, 0, |low|)
    ensures AgreeOutside(Reduce(u, low), Reduce(v, low), 0, |low|)
    ensures Reduce(u, low) != Reduce(v, low)
  {
  }

  /** The remainder reveals every error burst no longer than the generator's degree:
      dividends that differ only inside n consecutive coefficients have different
      remainders, provided the generator's constant term is 1. */
  lemma {:induction false} BurstChangesRemainder(u: Bits, v: Bits, low: Bits, p: nat)
    requires |u| == |v| >= |low| > 0 && low[|low| - 1]
    requires AgreeOutside(u, v, p, p + |low|)
    requires Remainder(u, low) == Remainder(v, low)
    ensures u == v
    decreases |u|
  {
    if |u| > |low| {
      if u[0] == v[0] {
        ReduceAgreement(u, v, low, p, p + |low|);
        BurstChangesRemainder(Reduce(u, low), Reduce(v, low), low, if p > 0 then p - 1 else 0);
      } else {
        ReduceDifference(u, v, low);
        BurstChangesRemainder(Reduce(u, low), Reduce(v, low), low, 0);
      }
    }
  }

  /** Dividends that differ only in the last |low| coefficients have remainders that
      differ in exactly the same places. */
  lemma {:induction false} TrailerPassesThrough(u: Bits, v: Bits, low: Bits, i: nat)
    requires |u| == |v| >= |low| && AgreeOutside(u, v, |u| - |low|, |u|) && i < |low|
    ensures Remainder(u, low)[i] != Remainder(v, low)[i] <==> u[|u| - |low| + i] != v[|u| - |low| + i]
    decreases |u|
  {
    if |u| > |low| {
      ReduceAgreement(u, v, low, |u| - |low|, |u|);
      ReduceSameDifference(u, v, low, |u| - |low| + i - 1);
      TrailerPassesThrough(Reduce(u, low), Reduce(v, low), low, i);
    }
  }

  lemma ReduceSameDifference(u: Bits, v: Bits, low: Bits, i: nat)
    requires |u| == |v| > |low| && u[0] == v[0] && i < |u| - 1
    ensures Reduce(u, low)[i] != Reduce(v, low)[i] <==> u[i + 1] != v[i + 1]
  {
    ReduceAt(u, low, i);
    ReduceAt(v, low, i);
  }

  lemma TrailerIsAdded(front: Bits, trailer: Bits, low: Bits)
    requires |trailer| == |low|
    ensures forall i :: 0 <= i < |low| ==>
              (Remainder(front + trailer, low)[i] != Remainder(front + Zeros(|low|), low)[i] <==> trailer[i])
  {
    forall i | 0 <= i < |low|
      ensures Remainder(front + trailer, low)[i] != Remainder(front + Zeros(|low|), low)[i] <==> trailer[i]
    {
      TrailerShows(front, trailer, Zeros(|low|), low, i);
    }
  }

  lemma TrailerShows(front: Bits, x: Bits, y: Bits, low: Bits, i: nat)
    requires |x| == |y| == |low| && i < |low|
    ensures Remainder(front + x, low)[i] != Remainder(front + y, low)[i] <==> x[i] != y[i]
  {
    TrailersDiffer(front, x, y, i);
    TrailerPassesThrough(front + x, front + y, low, i);
  }

  lemma TrailersDiffer(front: Bits, x: Bits, y: Bits, i: nat)
    requires |x| == |y| && i < |x|
    ensures AgreeOutside(front + x, front + y, |front|, |front| + |x|)
    ensures (front + x)[|front| + i] == x[i] && (front + y)[|front| + i] == y[i]
  {
  }

  /** What the receiver checks. Dividing a message together with its trailer leaves all
      ones exactly when the trailer is the complemented remainder of the message. */
  lemma ReceiverCheck(front: Bits, trailer: Bits, low: Bits)
    requires |trailer| == |low|
    ensures Remainder(front + trailer, low) == Complement(Zeros(|low|))
       <==> trailer == Complement(Remainder(front + Zeros(|low|), low))
  {
    TrailerIsAdded(front, trailer, low);
    OnesMeansComplement(Remainder(front + trailer, low), Remainder(front + Zeros(|low|), low), trailer);
  }

  lemma OnesMeansComplement(r: Bits, s: Bits, trailer: Bits)
    requires |r| == |s| == |trailer|
    requires forall i :: 0 <= i < |r| ==> (r[i] != s[i] <==> trailer[i])
    ensures r == Complement(Zeros(|r|)) <==> trailer == Complement(s)
  {
  }
}
