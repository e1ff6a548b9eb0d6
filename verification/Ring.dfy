/** Arithmetic of a ring of `n` slots: the j-th use of the ring is slot j modulo n. */
module Ring {

  /** `count` consecutive slots from use number `start`. */
  function Window(n: nat, start: nat, count: nat): (s: seq<nat>)
    requires n > 0
    ensures |s| == count
    ensures forall k :: 0 <= k < count ==> s[k] == (start + k) % n
    ensures forall k :: 0 <= k < count ==> s[k] < n
  {
    seq(count, k requires 0 <= k < count => (start + k) % n)
  }

  lemma MulAtLeast(x: int, n: int)
    requires x >= 1 && n >= 0
    ensures x * n >= n
  {
  }

  lemma MulMinus(p: int, q: int, n: int)
    ensures (p - q) * n == p * n - q * n
  {
  }

  lemma DivMod(a: int, n: nat)
    requires n > 0
    ensures a == (a / n) * n + a % n
  {
  }

  /** Numbers that differ by less than `n` have one quotient. */
  lemma SameQuotient(p: int, q: int, n: int, d: int)
    requires n > 0 && (p - q) * n == d && -n < d < n
    ensures p == q
  {
    if p > q {
      MulAtLeast(p - q, n);
    } else if p < q {
      MulAtLeast(q - p, n);
      MulMinus(p, q, n);
      MulMinus(q, p, n);
    }
  }

  lemma ModUnique(a: int, n: nat, q: int, r: int)
    requires n > 0 && a == q * n + r && 0 <= r < n
    ensures a % n == r
  {
    DivMod(a, n);
    MulMinus(a / n, q, n);
    SameQuotient(a / n, q, n, r - a % n);
  }

  lemma ModTurn(a: nat, n: nat)
    requires n > 0
    ensures (a + n) % n == a % n
  {
    var q := a / n;
    assert a + n == (q + 1) * n + a % n;
    ModUnique(a + n, n, q + 1, a % n);
  }

  lemma ModAdd(a: nat, k: nat, n: nat)
    requires n > 0
    ensures (a % n + k) % n == (a + k) % n
  {
    var q, r := a / n, a % n;
    var q', r' := (r + k) / n, (r + k) % n;
    assert a + k == (q + q') * n + r';
    ModUnique(a + k, n, q + q', r');
  }

  /** Uses less than one turn apart have different slots. */
  lemma ModDistinct(a: nat, b: nat, n: nat)
    requires a < b < a + n
    ensures a % n != b % n
  {
    if a % n == b % n {
      var p, q := a / n, b / n;
      DivMod(a, n);
      DivMod(b, n);
      MulMinus(q, p, n);
      SameQuotient(q, p, n, b - a);
    }
  }

  /** A window may be named by the slot it starts with. */
  lemma WindowFromSlot(n: nat, start: nat, count: nat)
    requires n > 0
    ensures Window(n, start % n, count) == Window(n, start, count)
  {
    forall k | 0 <= k < count ensures Window(n, start % n, count)[k] == Window(n, start, count)[k] {
      ModAdd(start, k, n);
    }
  }

  lemma WindowTurn(n: nat, start: nat, count: nat)
    requires n > 0
    ensures Window(n, start + n, count) == Window(n, start, count)
  {
    forall k | 0 <= k < count ensures Window(n, start + n, count)[k] == Window(n, start, count)[k] {
      ModTurn(start + k, n);
      assert start + n + k == start + k + n;
    }
  }

  lemma WindowSplit(n: nat, start: nat, a: nat, b: nat)
    requires n > 0
    ensures Window(n, start, a + b) == Window(n, start, a) + Window(n, start + a, b)
  {
  }

  /** No slot occurs twice within one turn. */
  lemma WindowDistinct(n: nat, start: nat, count: nat, j: nat, k: nat)
    requires n > 0 && count <= n && j < k < count
    ensures Window(n, start, count)[j] != Window(n, start, count)[k]
  {
    ModDistinct(start + j, start + k, n);
  }

  /** Taking a prefix off a full turn and appending it again gives the next full turn. */
  lemma Rotate(n: nat, start: nat, s: seq<nat>, k: nat)
    requires n > 0 && k <= n
    requires s == Window(n, start, n)
    ensures s[..k] == Window(n, start, k)
    ensures s[k..] + s[..k] == Window(n, start + k, n)
  {
    WindowSplit(n, start, k, n - k);
    WindowSplit(n, start + k, n - k, k);
    WindowTurn(n, start, k);
  }

  /** A slot in one part of a full turn is in no later part. */
  lemma NotInLaterPart(n: nat, start: nat, a: seq<nat>, b: seq<nat>, i: nat)
    requires n > 0 && a + b == Window(n, start, n) && i < |a|
    ensures a[i] !in b
  {
    forall k | 0 <= k < |b| ensures b[k] != a[i] {
      assert (a + b)[i] == a[i] && (a + b)[|a| + k] == b[k];
      WindowDistinct(n, start, n, i, |a| + k);
    }
  }

  /** The head of the last part of a full turn is in no earlier part. */
  lemma NotInEarlierParts(n: nat, start: nat, a: seq<nat>, b: seq<nat>, c: seq<nat>)
    requires n > 0 && a + b + c == Window(n, start, n) && c != []
    ensures c[0] !in a && c[0] !in b
  {
    hide Window;
    var s := a + b + c;
    assert s[|a| + |b|] == c[0];
    forall k | 0 <= k < |a| ensures a[k] != c[0] {
      assert s[k] == a[k];
      WindowDistinct(n, start, n, k, |a| + |b|);
    }
    forall k | 0 <= k < |b| ensures b[k] != c[0] {
      assert s[|a| + k] == b[k];
      WindowDistinct(n, start, n, |a| + k, |a| + |b|);
    }
  }
}
