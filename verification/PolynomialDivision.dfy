/** Long division of polynomials over GF(2) by the CRC-32 generator, as clause 3.2.9 of IEEE 802.3-2018 defines it. */
module PolynomialDivision {

  /** A polynomial over GF(2) is the sequence of its coefficients, highest power first. */
  type Poly = seq<bool>

  /** x^32 + x^26 + x^23 + x^22 + x^16 + x^12 + x^11 + x^10 + x^8 + x^7 + x^5 + x^4 + x^2 + x + 1 */
  const GENERATOR: Poly :=
    [true,
     false, false, false, false, false, true, false, false,
     true, true, false, false, false, false, false, true,
     false, false, false, true, true, true, false, true,
     true, false, true, true, false, true, true, true]

  function Zeros(n: nat): (p: Poly)
    ensures |p| == n && forall i :: 0 <= i < n ==> !p[i]
  {
    seq(n, _ => false)
  }

  function Plus(p: Poly, q: Poly): (r: Poly)
    requires |p| == |q|
    ensures |r| == |p| && forall i :: 0 <= i < |p| ==> r[i] == (p[i] != q[i])
  {
    seq(|p|, i requires 0 <= i < |p| => p[i] != q[i])
  }

  function Scaled(b: bool, p: Poly): (r: Poly)
    ensures |r| == |p| && forall i :: 0 <= i < |p| ==> r[i] == (b && p[i])
  {
    if b then p else Zeros(|p|)
  }

  /** `q` times the generator. */
  function Times(q: Poly): (p: Poly)
    ensures |p| == |q| + 32
  {
    if q == [] then Zeros(32)
    else Plus(Scaled(q[0], GENERATOR) + Zeros(|q| - 1), [false] + Times(q[1..]))
  }

  function DivisionStep(r: Poly, b: bool): (r': Poly)
    requires |r| == 32
    ensures |r'| == 32
  {
    Plus(r[1..] + [false], Scaled(r[0] != b, GENERATOR[1..]))
  }

  function Remainder(r: Poly, m: Poly): (r': Poly)
    requires |r| == 32
    ensures |r'| == 32
    decreases |m|
  {
    if m == [] then r else Remainder(DivisionStep(r, m[0]), m[1..])
  }

  function Quotient(r: Poly, m: Poly): (q: Poly)
    requires |r| == 32
    ensures |q| == |m|
    decreases |m|
  {
    if m == [] then [] else [r[0] != m[0]] + Quotient(DivisionStep(r, m[0]), m[1..])
  }

  /** The message times x^32, with `r` added to its first 32 bits. */
  function Dividend(r: Poly, m: Poly): (p: Poly)
    requires |r| == 32
    ensures |p| == |m| + 32
  {
    Plus(r + Zeros(|m|), m + Zeros(32))
  }

  lemma DividendNil(r: Poly)
    requires |r| == 32
    ensures Dividend(r, []) == Plus(Zeros(32), Zeros(0) + r)
  {
  }

  lemma DividendStep(r: Poly, m: Poly)
    requires |r| == 32 && m != []
    ensures Dividend(r, m) == Plus(Scaled(r[0] != m[0], GENERATOR) + Zeros(|m| - 1),
                                   [false] + Dividend(DivisionStep(r, m[0]), m[1..]))
  {
    var q, r1 := r[0] != m[0], DivisionStep(r, m[0]);
    var lhs := Dividend(r, m);
    var rhs := Plus(Scaled(q, GENERATOR) + Zeros(|m| - 1), [false] + Dividend(r1, m[1..]));
    forall i | 0 <= i < |lhs| ensures lhs[i] == rhs[i] {
      if i == 0 {
      } else if i <= 32 {
        assert r1[i - 1] == ((i < 32 && r[i]) != (q && GENERATOR[i])) by {
          assert GENERATOR[1..][i - 1] == GENERATOR[i];
        }
      }
    }
  }

  /** Long division: after all of `m`, the register holds the remainder. */
  lemma {:induction false} Division(r: Poly, m: Poly)
    requires |r| == 32
    ensures Dividend(r, m) == Plus(Times(Quotient(r, m)), Zeros(|m|) + Remainder(r, m))
    decreases |m|
  {
    hide Dividend, DivisionStep, Plus, Scaled, Zeros;
    if m == [] {
      DividendNil(r);
    } else {
      var n, r1, q := |m| - 1, DivisionStep(r, m[0]), Quotient(r, m);
      Division(r1, m[1..]);
      var high := Scaled(q[0], GENERATOR) + Zeros(n);
      DividendStep(r, m);
      assert Zeros(n + 1) + Remainder(r, m) == [false] + (Zeros(n) + Remainder(r1, m[1..]));
      assert q[1..] == Quotient(r1, m[1..]);
      PlusShifted(high, Times(q[1..]), Zeros(n) + Remainder(r1, m[1..]));
    }
  }

  lemma PlusShifted(h: Poly, p: Poly, q: Poly)
    requires |h| == |p| + 1 == |q| + 1
    ensures Plus(h, [false] + Plus(p, q)) == Plus(Plus(h, [false] + p), [false] + q)
  {
  }

  lemma PlusCancels(h: Poly, p: Poly, q: Poly)
    requires |h| == |p| == |q| && Plus(h, p) == Plus(h, q)
    ensures p == q
  {
    forall i | 0 <= i < |p| ensures p[i] == q[i] {
      assert Plus(h, p)[i] == Plus(h, q)[i];
    }
  }

  /** There is only one remainder. */
  lemma {:induction false} DivisionUnique(q: Poly, r: Poly, q': Poly, r': Poly)
    requires |q| == |q'| && |r| == |r'| == 32
    requires Plus(Times(q), Zeros(|q|) + r) == Plus(Times(q'), Zeros(|q|) + r')
    ensures q == q' && r == r'
    decreases |q|
  {
    hide Plus, Scaled, Zeros;
    if q == [] {
      PlusCancels(Zeros(32), r, r');
    } else {
      var n := |q| - 1;
      var p, p' := Times(q[1..]), Times(q'[1..]);
      var s, s' := Zeros(n) + r, Zeros(n) + r';
      assert Zeros(n + 1) + r == [false] + s && Zeros(n + 1) + r' == [false] + s';
      assert Plus(Times(q), [false] + s)[0] == q[0] && Plus(Times(q'), [false] + s')[0] == q'[0];
      var high := Scaled(q[0], GENERATOR) + Zeros(n);
      PlusShifted(high, p, s);
      PlusShifted(high, p', s');
      PlusCancels(high, [false] + Plus(p, s), [false] + Plus(p', s'));
      assert ([false] + Plus(p, s))[1..] == Plus(p, s) && ([false] + Plus(p', s'))[1..] == Plus(p', s');
      DivisionUnique(q[1..], r, q'[1..], r');
      assert q == [q[0]] + q[1..] && q' == [q'[0]] + q'[1..];
    }
  }
}
