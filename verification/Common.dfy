module Common {

  datatype Option<+T> = None | Some(value: T)

  const PAGE: nat := 4096

  /** A number below 2n wraps around n at most once. */
  lemma WrapOnce(n: nat, x: nat)
    requires 0 < n && x < 2 * n
    ensures x % n == if x < n then x else x - n
  {
    var q := x / n;
    assert x == q * n + x % n;
    Multiple(n, q);
  }

  lemma Multiple(n: nat, q: nat)
    ensures q == 0 ==> q * n == 0
    ensures q == 1 ==> q * n == n
    ensures q >= 2 ==> q * n >= n + n
  {
    if q >= 2 {
      assert q * n == n + n + (q - 2) * n;
    }
  }

  /** The place k after c on a ring of n. */
  function Around(n: nat, c: nat, k: nat): (i: nat)
    requires 0 < n
    ensures i < n
  {
    (c + k) % n
  }

  lemma AroundIs(n: nat, c: nat, k: nat)
    requires c < n && k <= n
    ensures Around(n, c, k) == if c + k < n then c + k else c + k - n
  {
    WrapOnce(n, c + k);
  }

  lemma {:induction false} SubsetSize<T>(a: set<T>, b: set<T>)
    requires a <= b
    ensures |a| <= |b|
    decreases b
  {
    if b != {} {
      var x :| x in b;
      SubsetSize(a - {x}, b - {x});
    }
  }
}
