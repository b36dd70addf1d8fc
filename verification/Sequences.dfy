/** The newest elements of a sequence, for the bounded buffers. */
module Sequences {

  function Min(a: nat, b: nat): nat {
    if a < b then a else b
  }

  /** The last `n` elements. */
  function Last<T>(n: nat, s: seq<T>): (r: seq<T>)
    ensures |r| == Min(n, |s|)
  {
    if |s| <= n then s else s[|s| - n..]
  }

  lemma LastPush<T>(size: nat, q: seq<T>, past: seq<T>, data: seq<T>)
    requires |q| <= size && q == Last(|q|, past)
    ensures var r := Last(size, q + data); r == Last(|r|, past + data)
  {
    var k := |past| - |q|;
    assert past == past[..k] + q;
    assert past + data == past[..k] + (q + data);
  }

  lemma LastPop<T>(q: seq<T>, past: seq<T>, n: nat)
    requires n <= |q| && q == Last(|q|, past)
    ensures q[n..] == Last(|q| - n, past)
  {
  }
}
