/** Index arithmetic of the power-of-two ring: masking is reduction modulo the capacity. */
module RingIndex {
  function Pow2(k: nat): nat {
    if k == 0 then 1 else 2 * Pow2(k - 1)
  }

  ghost predicate IsPow2(n: nat) {
    exists k: nat :: n == Pow2(k)
  }

  /** Bitwise and. */
  function And(a: nat, b: nat): nat {
    if a == 0 || b == 0 then 0
    else (if a % 2 == 1 && b % 2 == 1 then 1 else 0) + 2 * And(a / 2, b / 2)
  }

  lemma ModDouble(x: nat, m: nat)
    requires m > 0
    ensures x % (2 * m) == x % 2 + 2 * ((x / 2) % m)
  {
    var q, r := (x / 2) / m, (x / 2) % m;
    assert x == 2 * (m * q + r) + x % 2;
    assert x == (2 * m) * q + (2 * r + x % 2);
    ModUnique(x, 2 * m, q, 2 * r + x % 2);
  }

  /** A multiple other than zero is at least as large as what it is a multiple of. */
  lemma MultipleSize(m: nat, d: int)
    ensures d >= 1 ==> m * d >= m
    ensures d <= -1 ==> m * d + m <= 0
  {
  }

  /** Division with remainder is unique. */
  lemma ModUnique(x: int, m: nat, q: int, r: nat)
    requires r < m && x == m * q + r
    ensures x % m == r && x / m == q
  {
    var d := x / m - q;
    assert m * d == r - x % m;
    MultipleSize(m, d);
  }

  lemma {:induction false} MaskIsMod(x: nat, k: nat)
    ensures Pow2(k) > 0 && And(x, Pow2(k) - 1) == x % Pow2(k)
  {
    if k > 0 {
      MaskIsMod(x / 2, k - 1);
      ModDouble(x, Pow2(k - 1));
      assert (Pow2(k) - 1) / 2 == Pow2(k - 1) - 1 && (Pow2(k) - 1) % 2 == 1;
    }
  }

  /** `(i + 1) & mask`, the source's next index. */
  function NextIndex(i: nat, n: nat): nat
    requires n > 0
  {
    And(i + 1, n - 1)
  }

  lemma NextIndexIsMod(count: nat, n: nat)
    requires IsPow2(n) && n > 0
    ensures NextIndex(count % n, n) == (count + 1) % n
  {
    var k: nat :| n == Pow2(k);
    MaskIsMod(count % n + 1, k);
    ModSucc(count, n);
  }

  lemma ModSucc(count: nat, n: nat)
    requires n > 0
    ensures (count % n + 1) % n == (count + 1) % n
  {
    var q, r := count / n, count % n;
    if r + 1 == n {
      assert count + 1 == n * (q + 1) + 0;
      ModUnique(count + 1, n, q + 1, 0);
      ModUnique(r + 1, n, 1, 0);
    } else {
      ModUnique(count + 1, n, q, r + 1);
      ModUnique(r + 1, n, 0, r + 1);
    }
  }

  /** Counters less than a full turn apart share an index only when they are equal. */
  lemma SameIndex(a: nat, b: nat, n: nat)
    requires n > 0 && b <= a <= b + n
    ensures a % n == b % n <==> a == b || a == b + n
  {
    var q, r := b / n, b % n;
    if a == b + n {
      ModUnique(a, n, q + 1, r);
    } else if r + (a - b) < n {
      ModUnique(a, n, q, r + (a - b));
    } else {
      ModUnique(a, n, q + 1, r + (a - b) - n);
    }
  }

  const WORD := 0x1_0000_0000_0000_0000

  /** `size()`, with the unsigned subtraction of the source wrapping around. */
  function Size(write: nat, read: nat, n: nat): nat {
    if write >= read then write - read else (n + (write - read) % WORD) % WORD
  }

  /** The wrap cancels: a ring at rest reports the number of items between its counters. */
  lemma SizeIsDistance(pushed: nat, popped: nat, n: nat)
    requires 0 < n <= 0x1_0000_0000 && popped <= pushed < popped + n
    ensures Size(pushed % n, popped % n, n) == pushed - popped
  {
    var w, r := pushed % n, popped % n;
    var q := popped / n;
    if r + (pushed - popped) < n {
      ModUnique(pushed, n, q, r + (pushed - popped));
    } else {
      ModUnique(pushed, n, q + 1, r + (pushed - popped) - n);
      assert w < r;
      ModUnique(w - r, WORD, -1, WORD + w - r);
      ModUnique(n + WORD + w - r, WORD, 1, n + w - r);
    }
  }
}
