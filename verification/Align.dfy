/** Alignment helpers shared by the allocators and the paging code. */
module Align {

  predicate IsAligned(value: nat, bytes: nat)
    requires bytes > 0
  {
    value % bytes == 0
  }

  function AlignDown(value: nat, bytes: nat): (r: nat)
    requires bytes > 0
    ensures IsAligned(r, bytes) && r <= value < r + bytes
  {
    MultipleLemma(value / bytes, bytes);
    value - value % bytes
  }

  function AlignUp(value: nat, bytes: nat): (r: nat)
    requires bytes > 0
    ensures IsAligned(r, bytes) && value <= r < value + bytes
  {
    if IsAligned(value, bytes) then
      value
    else
      MultipleLemma(value / bytes + 1, bytes);
      value + (bytes - value % bytes)
  }

  lemma {:induction false} MultipleLemma(q: nat, bytes: nat)
    requires bytes > 0
    ensures (q * bytes) % bytes == 0
  {
    if q > 0 {
      MultipleLemma(q - 1, bytes);
      ShiftLemma((q - 1) * bytes, bytes);
      assert q * bytes == (q - 1) * bytes + bytes;
    }
  }

  lemma {:induction false} ShiftLemma(a: nat, bytes: nat)
    requires bytes > 0
    ensures (a + bytes) % bytes == a % bytes
  {
    assert a + bytes == (a / bytes + 1) * bytes + a % bytes;
    DivUnique(a + bytes, bytes, a / bytes + 1, a % bytes);
  }

  lemma {:induction false} MulAtLeast(k: nat, d: nat)
    requires k >= 1
    ensures k * d >= d
  {
    assert k * d == (k - 1) * d + d;
  }

  lemma {:induction false} DivUnique(a: nat, d: nat, q: nat, r: nat)
    requires d > 0 && r < d && a == q * d + r
    ensures a / d == q && a % d == r
  {
    var q', r' := a / d, a % d;
    assert a == q' * d + r';
    if q > q' {
      MulAtLeast(q - q', d);
    } else if q < q' {
      MulAtLeast(q' - q, d);
    }
  }

  /** Nothing aligned lies strictly between an aligned value and its successor. */
  lemma {:induction false} AlignedBelow(a: nat, b: nat, bytes: nat)
    requires bytes > 0 && IsAligned(a, bytes) && IsAligned(b, bytes) && a < b + bytes
    ensures a <= b
  {
    var qa, qb := a / bytes, b / bytes;
    assert a == qa * bytes && b == qb * bytes;
    if qa > qb {
      MulAtLeast(qa - qb, bytes);
    } else if qb > qa {
      MulAtLeast(qb - qa, bytes);
      assert (qb - qa) * bytes == qb * bytes - qa * bytes;
    }
  }
}
