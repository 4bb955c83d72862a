/**
 * Offset paging (`paginated` in lib/api-response.ts): the page count goes through a rounded
 * division, and page boundaries shift when rows are prepended.
 */
module OffsetPaging {
  import opened Ieee754

  datatype Paginated<T> = Paginated(items: seq<T>, page: int, pageSize: int, total: int, totalPages: int, hasMore: bool)

  function Ceil(x: real): int {
    -((-x).Floor)
  }

  function MakePaginated<T>(items: seq<T>, page: int, pageSize: int, total: int): Paginated<T> {
    var totalPages := if pageSize > 0 then Ceil(Fl(total as real / pageSize as real)) else 0;
    Paginated(items, page, pageSize, total, totalPages, page < totalPages)
  }

  /** The binade of a page size, with the reciprocal of its lower end. */
  lemma {:induction false} BinadeOf(n: nat, e: nat) returns (k: int)
    requires n as real >= Pow2(e)
    ensures k >= 0 && Pow2(k) <= n as real < Pow2(k + 1)
    decreases (n as real / Pow2(e)).Floor
  {
    if n as real < Pow2(e + 1) {
      k := e;
    } else {
      Pow2Step(e);
      Halving(n as real, Pow2(e));
      k := BinadeOf(n, e + 1);
    }
  }

  lemma {:induction false} Reciprocal(k: nat)
    ensures Pow2(0 - k) * Pow2(k) == 1.0
  {
    if k > 0 {
      Reciprocal(k - 1);
      Pow2Step(k - 1);
      Pow2Step(0 - k);
      MoveTwo(Pow2(0 - k), Pow2(k - 1));
    }
  }

  lemma MoveTwo(a: real, b: real)
    ensures (2.0 * a) * b == a * (2.0 * b)
  {
  }

  lemma {:induction false} Reciprocals(k: nat) returns (low: real, high: real, a: real, b: real)
    ensures low == Pow2(k) && high == Pow2(k + 1) && a == Pow2(0 - k) && b == Pow2(0 - k - 1)
    ensures a * low == 1.0 && b * high == 1.0
  {
    low, high, a, b := Pow2(k), Pow2(k + 1), Pow2(0 - k), Pow2(0 - k - 1);
    Reciprocal(k);
    Reciprocal(k + 1);
    assert 0 - (k + 1) == 0 - k - 1;
  }

  lemma {:induction false} StepAt(k: nat, p: real)
    requires Pow2(k) <= p < Pow2(k + 1)
    ensures IsStep(Pow2(0 - k), Pow2(0 - k - 1), p)
  {
    var low, high, a, b := Reciprocals(k);
    CommutedBound(low, p, high, a, b);
  }

  /** The largest power of two below 1 / p, and its double, which is at least 1 / p. */
  lemma {:induction false} StepFor(p: nat) returns (e: int)
    requires 1 <= p <= TWO_53
    ensures -53 <= e <= 0 && IsStep(Pow2(e), Pow2(e - 1), p as real)
  {
    var k := BinadeOf(p, 0);
    AtMost53(k, p);
    StepAt(k, p as real);
    e := 0 - k;
  }

  predicate IsStep(u: real, h: real, p: real) {
    u * p >= 1.0 && h * p < 1.0
  }

  lemma CommutedBound(low: real, p: real, high: real, a: real, b: real)
    requires low <= p < high && a > 0.0 && b > 0.0 && a * low == 1.0 && b * high == 1.0
    ensures IsStep(a, b, p)
  {
    var x, y := a * p, b * p;
    Compare(p, x, low, a * low, a);
    Compare(p, y, high, b * high, b);
  }

  lemma {:induction false} AtMost53(k: int, p: nat)
    requires k >= 0 && Pow2(k) <= p as real && p <= TWO_53
    ensures k <= 53
  {
    Pow2Plus53(0);
    Pow2Step(53);
    if k > 53 {
      Pow2Monotone(54, k);
    }
  }

  lemma BelowGrid(q: real, z: real, p: real, u: real, h: real)
    requires p > 0.0 && z == q * p && z <= TWO_53 as real && IsStep(u, h, p)
    ensures q <= TWO_53 as real * u
  {
    var top, x := TWO_53 as real, u * p;
    var bound := (top * u) * p;
    assert bound == top * x;
    Compare(top * u, bound, q, z, p);
  }

  lemma ErrorBelow(q: real, e: int) returns (error: real)
    requires 0.0 <= q <= TWO_53 as real * Pow2(e) && -53 <= e
    ensures error == Distance(q, Fl(q)) && error <= Pow2(e - 1)
  {
    error := Distance(q, Fl(q));
    Pow2Plus53(e);
    Pow2Step(e - 1);
    FlError(q, e);
  }

  lemma CloserThan(error: real, u: real, h: real, p: real, r: real, x: real)
    requires p > 0.0 && error <= h && IsStep(u, h, p) && x == r * p && x >= 1.0
    ensures error < r
  {
    var y := h * p;
    Compare(h, y, r, x, p);
  }

  /** The rounding error of a quotient by p is less than any r with r p at least 1. */
  lemma {:induction false} ErrorSmall(q: real, z: real, r: real, x: real, p: nat)
    requires 1 <= p <= TWO_53 && q >= 0.0
    requires x == r * p as real && x >= 1.0 && z == q * p as real && z <= TWO_53 as real
    ensures Distance(q, Fl(q)) < r
  {
    var e := StepFor(p);
    BelowGrid(q, z, p as real, Pow2(e), Pow2(e - 1));
    var error := ErrorBelow(q, e);
    CloserThan(error, Pow2(e), Pow2(e - 1), p as real, r, x);
  }

  lemma {:induction false} RoundedBetween(q: real, n: nat)
    requires n < TWO_53 && n as real < q < (n + 1) as real
    requires Distance(q, Fl(q)) < q - n as real
    ensures Ceil(Fl(q)) == n + 1
  {
    WholeIsDouble(n);
    WholeIsDouble(n + 1);
    FlBounded(q, n as real);
    FlBounded(q, (n + 1) as real);
  }

  /** The quotient of total = n p + rest, with its products by p named. */
  lemma {:induction false} QuotientParts(total: nat, p: nat, n: nat, rest: nat)
    returns (q: real, z: real, r: real, x: real)
    requires p >= 1 && total == n * p + rest && rest < p
    ensures q == total as real / p as real && z == q * p as real && z == total as real
    ensures q == n as real + r && x == r * p as real && x == rest as real
    ensures 0.0 <= r < 1.0 && (rest == 0 <==> r == 0.0)
  {
    q := total as real / p as real;
    z := q * p as real;
    DivTimes(total as real, p as real);
    r := q - n as real;
    x := r * p as real;
    Remainder(q, n, r, p as real, x, z);
    assert x == rest as real by {
      assert (n * p) as real == n as real * p as real;
    }
    FractionRange(r, x, rest, p);
  }

  lemma {:induction false} Remainder(q: real, n: nat, r: real, p: real, x: real, z: real)
    requires r == q - n as real && x == r * p && z == q * p
    ensures x == z - n as real * p
  {
  }

  lemma {:induction false} FractionRange(r: real, x: real, rest: nat, p: nat)
    requires rest < p && x == r * p as real && x == rest as real
    ensures 0.0 <= r < 1.0 && (rest == 0 <==> r == 0.0)
  {
    Compare(r, x, 0.0, 0.0, p as real);
    Compare(r, x, 1.0, p as real, p as real);
  }

  /** The rounded division still gives the true page count. */
  lemma {:induction false} CeilExact(total: nat, p: nat)
    requires 1 <= p <= TWO_53 && total < TWO_53
    ensures Ceil(Fl(total as real / p as real)) == if total % p == 0 then total / p else total / p + 1
  {
    var n := total / p;
    WholeParts(total, p);
    var q, z, r, x := QuotientParts(total, p, n, total % p);
    if r == 0.0 {
      WholeIsDouble(n);
      FlExact(q);
    } else {
      ErrorSmall(q, z, r, x, p);
      RoundedBetween(q, n);
    }
  }

  lemma {:induction false} WholeParts(total: nat, p: nat)
    requires p >= 1
    ensures 0 <= total / p <= total && total == (total / p) * p + total % p && 0 <= total % p < p
  {
    var n := total / p;
    assert total == p * n + total % p;
    assert p * n == n + (p - 1) * n;
    assert (p - 1) * n >= 0;
  }

  /** `hasMore` says exactly that rows remain behind this page. */
  lemma {:induction false} PaginatedExact<T>(items: seq<T>, page: nat, pageSize: int, total: nat)
    requires pageSize <= TWO_53 && total < TWO_53
    ensures MakePaginated(items, page, pageSize, total).hasMore <==> pageSize >= 1 && page * pageSize < total
    ensures pageSize < 1 ==> MakePaginated(items, page, pageSize, total).totalPages == 0
  {
    if pageSize >= 1 {
      CeilExact(total, pageSize);
      PagesBehind(page, pageSize, total);
    }
  }

  lemma {:induction false} PageMultiple(d: int, size: nat)
    ensures d >= 1 ==> d * size >= size
    ensures d == 0 ==> d * size == 0
    ensures d <= -1 ==> d * size + size <= 0
  {
  }

  lemma {:induction false} PagesBehind(page: nat, size: nat, total: nat)
    requires size >= 1
    ensures page < (if total % size == 0 then total / size else total / size + 1) <==> page * size < total
  {
    var n := total / size;
    WholeParts(total, size);
    var d := page - n;
    var shift := d * size;
    assert page * size == n * size + shift;
    PageMultiple(d, size);
  }

  /** Up to `size` rows from a given offset. */
  function RowsFrom<T>(store: seq<T>, offset: nat, size: nat): seq<T> {
    if |store| <= offset then []
    else if |store| <= offset + size then store[offset..]
    else store[offset..offset + size]
  }

  function OffsetPage<T>(store: seq<T>, page: nat, size: nat): seq<T>
    requires page >= 1
  {
    RowsFrom(store, (page - 1) * size, size)
  }

  lemma {:induction false} RowsDrift<T>(added: seq<T>, store: seq<T>, at: nat, size: nat)
    requires |added| <= size <= at <= |store|
    ensures |RowsFrom(store, at - size, size)| == size
    ensures RowsFrom(store, at - size, size)[size - |added|..] <= RowsFrom(added + store, at, size)
  {
    assert RowsFrom(store, at - size, size) == store[at - size..at];
    assert store[at - size..at][size - |added|..] == (added + store)[at..at + |added|];
  }

  /** With k new rows in front, the next page begins with the last k rows of this one. */
  lemma {:induction false} OffsetPagesDrift<T>(added: seq<T>, store: seq<T>, page: nat, size: nat)
    requires page >= 1 && |added| <= size && page * size <= |store|
    ensures |OffsetPage(store, page, size)| == size
    ensures OffsetPage(store, page, size)[size - |added|..] <= OffsetPage(added + store, page + 1, size)
  {
    var from := (page - 1) * size;
    assert page * size == from + size;
    RowsDrift(added, store, from + size, size);
  }
}
