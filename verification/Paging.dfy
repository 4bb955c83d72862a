/**
 * Cursor and offset paging (lib/api-response.ts).  A store is the rows in page order; the
 * caller fetches limit + 1 rows strictly after the cursor.
 */
module Paging {
  import opened Text

  datatype CursorPage<T> = CursorPage(items: seq<T>, nextCursor: Option<string>, hasMore: bool)

  /** `cursorPage`: the extra row proves there is more and is not returned. */
  function MakePage<T>(items: seq<T>, limit: nat, key: T -> string): CursorPage<T> {
    var hasMore := |items| > limit;
    var page := if hasMore then items[..limit] else items;
    CursorPage(page, if hasMore && page != [] then Some(key(page[|page| - 1])) else None, hasMore)
  }

  /** The rows strictly after the row with this cursor; none when there is no such row. */
  function After<T>(store: seq<T>, cursor: string, key: T -> string): seq<T> {
    if store == [] then []
    else if key(store[0]) == cursor then store[1..]
    else After(store[1..], cursor, key)
  }

  function Remaining<T>(store: seq<T>, cursor: Option<string>, key: T -> string): seq<T> {
    match cursor case None => store case Some(c) => After(store, c, key)
  }

  function Take<T>(rows: seq<T>, n: nat): seq<T> {
    if |rows| <= n then rows else rows[..n]
  }

  function Fetch<T>(store: seq<T>, cursor: Option<string>, limit: nat, key: T -> string): CursorPage<T> {
    MakePage(Take(Remaining(store, cursor, key), limit + 1), limit, key)
  }

  // ----- Whole walks: one fetch from each state of the store, in turn -----

  /** All rows a walk returns. */
  function Walk<T>(stores: seq<seq<T>>, cursor: Option<string>, limit: nat, key: T -> string): seq<T>
    decreases stores
  {
    if stores == [] then []
    else
      var page := Fetch(stores[0], cursor, limit, key);
      page.items + if page.nextCursor == None then [] else Walk(stores[1..], page.nextCursor, limit, key)
  }

  /** The walk has met a page without a next cursor. */
  predicate Finished<T>(stores: seq<seq<T>>, cursor: Option<string>, limit: nat, key: T -> string)
    decreases stores
  {
    stores != [] &&
    var page := Fetch(stores[0], cursor, limit, key);
    page.nextCursor == None || Finished(stores[1..], page.nextCursor, limit, key)
  }

  // ----- Distinct keys -----

  predicate HasKey<T>(rows: seq<T>, cursor: string, key: T -> string) {
    exists i :: 0 <= i < |rows| && key(rows[i]) == cursor
  }

  predicate DistinctKeys<T>(rows: seq<T>, key: T -> string) {
    forall i, j :: 0 <= i < j < |rows| ==> key(rows[i]) != key(rows[j])
  }

  lemma {:induction false} AfterSplits<T>(rows: seq<T>, i: nat, key: T -> string)
    requires i < |rows| && DistinctKeys(rows, key)
    ensures After(rows, key(rows[i]), key) == rows[i + 1..]
  {
    if i > 0 {
      assert key(rows[0]) != key(rows[i]);
      AfterSplits(rows[1..], i - 1, key);
    }
  }

  lemma {:induction false} AfterIsSuffix<T>(rows: seq<T>, cursor: string, key: T -> string)
    ensures |After(rows, cursor, key)| <= |rows|
    ensures After(rows, cursor, key) == rows[|rows| - |After(rows, cursor, key)|..]
  {
    if rows != [] && key(rows[0]) != cursor {
      AfterIsSuffix(rows[1..], cursor, key);
    }
  }

  lemma {:induction false} RemainingDistinct<T>(store: seq<T>, cursor: Option<string>, key: T -> string)
    requires DistinctKeys(store, key)
    ensures DistinctKeys(Remaining(store, cursor, key), key)
  {
    if cursor.Some? {
      AfterIsSuffix(store, cursor.value, key);
    }
  }

  /** Continuing after a row of the rest is continuing inside the rest. */
  lemma {:induction false} AfterAfter<T>(store: seq<T>, cursor: string, next: string, key: T -> string)
    requires DistinctKeys(store, key) && HasKey(After(store, cursor, key), next, key)
    ensures After(store, next, key) == After(After(store, cursor, key), next, key)
  {
    var rest := After(store, cursor, key);
    AfterIsSuffix(store, cursor, key);
    var i :| 0 <= i < |rest| && key(rest[i]) == next;
    var k := |store| - |rest| + i;
    assert store[k] == rest[i];
    AfterSplits(store, k, key);
    AfterSplits(rest, i, key);
    assert store[k + 1..] == rest[i + 1..];
  }

  /** One fetch: a full page and a cursor on its last row, or the whole rest and no cursor. */
  lemma {:induction false} FetchSplits<T>(store: seq<T>, cursor: Option<string>, limit: nat, key: T -> string)
    requires limit >= 1 && DistinctKeys(store, key)
    ensures var rest := Remaining(store, cursor, key);
            var page := Fetch(store, cursor, limit, key);
            if |rest| <= limit then page == CursorPage(rest, None, false)
            else
              && page == CursorPage(rest[..limit], Some(key(rest[limit - 1])), true)
              && HasKey(store, page.nextCursor.value, key)
              && Remaining(store, page.nextCursor, key) == rest[limit..]
  {
    var rest := Remaining(store, cursor, key);
    RemainingDistinct(store, cursor, key);
    if |rest| > limit {
      var next := key(rest[limit - 1]);
      assert Take(rest, limit + 1)[..limit] == rest[..limit];
      AfterSplits(rest, limit - 1, key);
      if cursor.Some? {
        AfterAfter(store, cursor.value, next, key);
        AfterIsSuffix(store, cursor.value, key);
        assert store[|store| - |rest| + limit - 1] == rest[limit - 1];
      }
    }
  }

  // ----- A store that grows only ahead of the cursor -----

  /** Between fetches, what follows the cursor stays as it was. */
  predicate GrowsAhead<T(==)>(stores: seq<seq<T>>, cursor: Option<string>, limit: nat, key: T -> string)
    decreases stores
  {
    |stores| <= 1 ||
    var next := Fetch(stores[0], cursor, limit, key).nextCursor;
    next == None ||
    (Remaining(stores[1], next, key) == Remaining(stores[0], next, key)
     && GrowsAhead(stores[1..], next, limit, key))
  }

  predicate AllDistinct<T>(stores: seq<seq<T>>, key: T -> string) {
    forall i :: 0 <= i < |stores| ==> DistinctKeys(stores[i], key)
  }

  /** What the next fetch of a walk finds when the store only grows ahead of the cursor. */
  lemma {:induction false} NextFetch<T>(stores: seq<seq<T>>, cursor: Option<string>, limit: nat, key: T -> string)
    requires limit >= 1 && |stores| > 1 && AllDistinct(stores, key)
    requires GrowsAhead(stores, cursor, limit, key)
    requires |Remaining(stores[0], cursor, key)| > limit
    ensures var next := Fetch(stores[0], cursor, limit, key).nextCursor;
            && AllDistinct(stores[1..], key) && GrowsAhead(stores[1..], next, limit, key)
            && Remaining(stores[1..][0], next, key) == Remaining(stores[0], cursor, key)[limit..]
  {
    FetchSplits(stores[0], cursor, limit, key);
    assert stores[1..][0] == stores[1];
  }

  /** A walk whose first fetch takes all that is left. */
  lemma {:induction false} LastPage<T>(stores: seq<seq<T>>, cursor: Option<string>, limit: nat, key: T -> string)
    requires limit >= 1 && stores != [] && AllDistinct(stores, key)
    requires |Remaining(stores[0], cursor, key)| <= limit
    ensures Finished(stores, cursor, limit, key)
    ensures Walk(stores, cursor, limit, key) == Remaining(stores[0], cursor, key)
  {
    var rest := Remaining(stores[0], cursor, key);
    FetchSplits(stores[0], cursor, limit, key);
    assert rest + [] == rest;
  }

  /** A walk whose first fetch leaves something. */
  lemma {:induction false} FullPage<T>(stores: seq<seq<T>>, cursor: Option<string>, limit: nat, key: T -> string)
    returns (next: Option<string>)
    requires limit >= 1 && stores != [] && AllDistinct(stores, key)
    requires |Remaining(stores[0], cursor, key)| > limit
    ensures next == Some(key(Remaining(stores[0], cursor, key)[limit - 1]))
    ensures next == Fetch(stores[0], cursor, limit, key).nextCursor
    ensures HasKey(stores[0], next.value, key)
    ensures Remaining(stores[0], next, key) == Remaining(stores[0], cursor, key)[limit..]
    ensures Finished(stores, cursor, limit, key) <==> Finished(stores[1..], next, limit, key)
    ensures Walk(stores, cursor, limit, key)
         == Remaining(stores[0], cursor, key)[..limit] + Walk(stores[1..], next, limit, key)
    ensures AllDistinct(stores[1..], key)
  {
    next := Fetch(stores[0], cursor, limit, key).nextCursor;
    FetchSplits(stores[0], cursor, limit, key);
  }

  /** Rows arriving ahead of the cursor change nothing: a finished walk returns exactly the
      rows that followed the starting cursor, each once and in order. */
  lemma {:induction false} WalkExact<T>(stores: seq<seq<T>>, cursor: Option<string>, limit: nat, key: T -> string)
    requires limit >= 1 && AllDistinct(stores, key)
    requires GrowsAhead(stores, cursor, limit, key) && Finished(stores, cursor, limit, key)
    ensures Walk(stores, cursor, limit, key) == Remaining(stores[0], cursor, key)
    decreases |stores|
  {
    if |Remaining(stores[0], cursor, key)| <= limit {
      LastPage(stores, cursor, limit, key);
    } else if |stores| == 1 {
      OnlyPage(stores, cursor, limit, key);
    } else {
      var next := PageAndRest(stores, cursor, limit, key);
      WalkExact(stores[1..], next, limit, key);
      CutAndJoin(Remaining(stores[0], cursor, key), limit);
    }
  }

  lemma {:induction false} CutAndJoin<T>(rows: seq<T>, k: nat)
    requires k <= |rows|
    ensures rows == rows[..k] + rows[k..]
  {
  }

  /** With a single fetch, a walk that leaves something is not finished. */
  lemma {:induction false} OnlyPage<T>(stores: seq<seq<T>>, cursor: Option<string>, limit: nat, key: T -> string)
    requires limit >= 1 && |stores| == 1 && AllDistinct(stores, key)
    requires |Remaining(stores[0], cursor, key)| > limit
    ensures !Finished(stores, cursor, limit, key)
  {
    var next := FullPage(stores, cursor, limit, key);
    assert stores[1..] == [];
  }

  /** A full page, and the rest of the walk over a store that grows ahead of the cursor. */
  lemma {:induction false} PageAndRest<T>(stores: seq<seq<T>>, cursor: Option<string>, limit: nat, key: T -> string)
    returns (next: Option<string>)
    requires limit >= 1 && |stores| > 1 && AllDistinct(stores, key)
    requires GrowsAhead(stores, cursor, limit, key)
    requires |Remaining(stores[0], cursor, key)| > limit
    ensures Finished(stores, cursor, limit, key) <==> Finished(stores[1..], next, limit, key)
    ensures Walk(stores, cursor, limit, key)
         == Remaining(stores[0], cursor, key)[..limit] + Walk(stores[1..], next, limit, key)
    ensures AllDistinct(stores[1..], key) && GrowsAhead(stores[1..], next, limit, key)
    ensures Remaining(stores[1..][0], next, key) == Remaining(stores[0], cursor, key)[limit..]
  {
    next := FullPage(stores, cursor, limit, key);
    NextFetch(stores, cursor, limit, key);
  }

  /** It is finished exactly when there were fetches enough for those rows. */
  lemma {:induction false} WalkFinishes<T>(stores: seq<seq<T>>, cursor: Option<string>, limit: nat, key: T -> string)
    requires limit >= 1 && stores != [] && AllDistinct(stores, key)
    requires GrowsAhead(stores, cursor, limit, key)
    ensures Finished(stores, cursor, limit, key) <==> |Remaining(stores[0], cursor, key)| <= Capacity(|stores|, limit)
    decreases |stores|
  {
    if |Remaining(stores[0], cursor, key)| <= limit || |stores| == 1 {
      FinishesNow(stores, cursor, limit, key);
    } else {
      var next := PageAndRest(stores, cursor, limit, key);
      WalkFinishes(stores[1..], next, limit, key);
      FinishesBehind(stores, cursor, limit, key, next);
    }
  }

  lemma {:induction false} FinishesNow<T>(stores: seq<seq<T>>, cursor: Option<string>, limit: nat, key: T -> string)
    requires limit >= 1 && stores != [] && AllDistinct(stores, key)
    requires |Remaining(stores[0], cursor, key)| <= limit || |stores| == 1
    ensures Finished(stores, cursor, limit, key) <==> |Remaining(stores[0], cursor, key)| <= Capacity(|stores|, limit)
  {
    CapacityOfOne(|stores|, limit);
    if |Remaining(stores[0], cursor, key)| <= limit {
      LastPage(stores, cursor, limit, key);
    } else {
      OnlyPage(stores, cursor, limit, key);
    }
  }

  lemma {:induction false} FinishesBehind<T>(stores: seq<seq<T>>, cursor: Option<string>, limit: nat,
                                             key: T -> string, next: Option<string>)
    requires |stores| > 1 && |Remaining(stores[0], cursor, key)| > limit
    requires Finished(stores, cursor, limit, key) <==> Finished(stores[1..], next, limit, key)
    requires Remaining(stores[1..][0], next, key) == Remaining(stores[0], cursor, key)[limit..]
    requires Finished(stores[1..], next, limit, key) <==>
             |Remaining(stores[1..][0], next, key)| <= Capacity(|stores[1..]|, limit)
    ensures Finished(stores, cursor, limit, key) <==> |Remaining(stores[0], cursor, key)| <= Capacity(|stores|, limit)
  {
    FinishStep(Finished(stores, cursor, limit, key), |Remaining(stores[0], cursor, key)|,
      |Remaining(stores[1..][0], next, key)|, |stores|, limit);
  }

  lemma {:induction false} CapacityOfOne(pages: nat, limit: nat)
    requires pages >= 1
    ensures Capacity(pages, limit) >= Capacity(1, limit) == limit
  {
    assert Capacity(0, limit) == 0;
  }

  lemma {:induction false} FinishStep(finished: bool, rows: nat, left: nat, pages: nat, limit: nat)
    requires pages >= 1 && rows == limit + left
    requires finished <==> left <= Capacity(pages - 1, limit)
    ensures finished <==> rows <= Capacity(pages, limit)
  {
  }

  /** How many rows that many full pages hold. */
  function Capacity(pages: nat, limit: nat): nat {
    if pages == 0 then 0 else limit + Capacity(pages - 1, limit)
  }

  lemma {:induction false} CapacityIsProduct(pages: nat, limit: nat)
    ensures Capacity(pages, limit) == pages * limit
  {
    if pages > 0 {
      CapacityIsProduct(pages - 1, limit);
      assert (pages - 1) * limit + limit == pages * limit;
    }
  }

  // ----- A store that grows anywhere -----

  /** `a` is what is left of `b` when some elements are taken out. */
  predicate IsSubsequence<T(==)>(a: seq<T>, b: seq<T>)
    decreases b
  {
    a == [] || (b != [] && if a[0] == b[0] then IsSubsequence(a[1..], b[1..]) else IsSubsequence(a, b[1..]))
  }

  lemma {:induction false} SubsequenceTail<T>(a: seq<T>, b: seq<T>)
    requires a != [] && IsSubsequence(a, b)
    ensures b != [] && IsSubsequence(a[1..], b[1..])
    decreases b
  {
    if a[0] != b[0] {
      SubsequenceTail(a, b[1..]);
      SubsequenceWeaken(a[1..], b[1..]);
    }
  }

  lemma {:induction false} SubsequenceWeaken<T>(a: seq<T>, b: seq<T>)
    requires b != [] && IsSubsequence(a, b[1..])
    ensures IsSubsequence(a, b)
    decreases b
  {
    if a != [] && a[0] == b[0] {
      SubsequenceTail(a, b[1..]);
      SubsequenceWeaken(a[1..], b[1..]);
    }
  }

  lemma {:induction false} SubsequenceTransitive<T>(a: seq<T>, b: seq<T>, c: seq<T>)
    requires IsSubsequence(a, b) && IsSubsequence(b, c)
    ensures IsSubsequence(a, c)
    decreases c
  {
    if a != [] {
      if b[0] == c[0] {
        if a[0] == b[0] {
          SubsequenceTransitive(a[1..], b[1..], c[1..]);
        } else {
          SubsequenceTransitive(a, b[1..], c[1..]);
        }
      } else {
        SubsequenceTransitive(a, b, c[1..]);
        SubsequenceWeaken(a, c);
      }
    }
  }

  lemma {:induction false} SubsequenceBehind<T>(p: seq<T>, a: seq<T>, b: seq<T>)
    requires IsSubsequence(a, b)
    ensures IsSubsequence(p + a, p + b)
  {
    if p == [] {
      assert p + a == a && p + b == b;
    } else {
      assert (p + a)[1..] == p[1..] + a && (p + b)[1..] == p[1..] + b;
      SubsequenceBehind(p[1..], a, b);
    }
  }

  lemma {:induction false} SubsequenceKeepsKey<T>(a: seq<T>, b: seq<T>, cursor: string, key: T -> string)
    requires IsSubsequence(a, b) && HasKey(a, cursor, key)
    ensures HasKey(b, cursor, key)
    decreases b
  {
    var i :| 0 <= i < |a| && key(a[i]) == cursor;
    if a[0] != b[0] {
      SubsequenceKeepsKey(a, b[1..], cursor, key);
      var j :| 0 <= j < |b[1..]| && key(b[1..][j]) == cursor;
      assert key(b[j + 1]) == cursor;
    } else if i > 0 {
      assert key(a[1..][i - 1]) == cursor;
      SubsequenceKeepsKey(a[1..], b[1..], cursor, key);
      var j :| 0 <= j < |b[1..]| && key(b[1..][j]) == cursor;
      assert key(b[j + 1]) == cursor;
    } else {
      assert key(b[0]) == cursor;
    }
  }

  /** Growing a store keeps what follows a row behind that row. */
  lemma {:induction false} AfterGrows<T>(a: seq<T>, b: seq<T>, cursor: string, key: T -> string)
    requires IsSubsequence(a, b) && HasKey(a, cursor, key) && DistinctKeys(b, key)
    ensures IsSubsequence(After(a, cursor, key), After(b, cursor, key))
    decreases b
  {
    var i :| 0 <= i < |a| && key(a[i]) == cursor;
    if a[0] == b[0] {
      if key(a[0]) != cursor {
        assert key(a[1..][i - 1]) == cursor;
        AfterGrows(a[1..], b[1..], cursor, key);
      }
    } else {
      SubsequenceKeepsKey(a, b[1..], cursor, key);
      var j :| 0 <= j < |b[1..]| && key(b[1..][j]) == cursor;
      assert key(b[0]) != key(b[j + 1]);
      AfterGrows(a, b[1..], cursor, key);
    }
  }

  predicate Grows<T(==)>(stores: seq<seq<T>>) {
    forall i :: 0 <= i < |stores| - 1 ==> IsSubsequence(stores[i], stores[i + 1])
  }

  /** A page and then rows that follow it in a later state lie in order in that state. */
  lemma {:induction false} PageThenRest<T>(page: seq<T>, behind: seq<T>, later: seq<T>, rest: seq<T>, key: T -> string)
    requires page != [] && IsSubsequence(page + behind, later) && DistinctKeys(later, key)
    requires IsSubsequence(rest, After(later, key(page[|page| - 1]), key))
    ensures IsSubsequence(page + rest, later)
    decreases later
  {
    var a, last := page + behind, key(page[|page| - 1]);
    assert a[0] == page[0] && (page + rest)[0] == page[0];
    if a[0] == later[0] {
      if |page| == 1 {
        assert (page + rest)[1..] == rest;
      } else {
        assert a[1..] == page[1..] + behind && (page + rest)[1..] == page[1..] + rest;
        LastIsLater(page[1..], behind, later, key);
        PageThenRest(page[1..], behind, later[1..], rest, key);
      }
    } else {
      LastIsLater(page, behind, later, key);
      PageThenRest(page, behind, later[1..], rest, key);
    }
  }

  lemma {:induction false} LastIsLater<T>(page: seq<T>, behind: seq<T>, later: seq<T>, key: T -> string)
    requires page != [] && later != [] && IsSubsequence(page + behind, later[1..]) && DistinctKeys(later, key)
    ensures key(later[0]) != key(page[|page| - 1])
  {
    var last := key(page[|page| - 1]);
    assert key((page + behind)[|page| - 1]) == last;
    SubsequenceKeepsKey(page + behind, later[1..], last, key);
    var j :| 0 <= j < |later[1..]| && key(later[1..][j]) == last;
    assert key(later[j + 1]) == last;
  }

  lemma {:induction false} GrowsToLast<T>(stores: seq<seq<T>>)
    requires stores != [] && Grows(stores)
    ensures IsSubsequence(stores[0], stores[|stores| - 1])
    decreases |stores|
  {
    if |stores| == 1 {
      SelfSubsequence(stores[0]);
    } else {
      forall i | 0 <= i < |stores[1..]| - 1
        ensures IsSubsequence(stores[1..][i], stores[1..][i + 1])
      {
        assert IsSubsequence(stores[i + 1], stores[i + 1 + 1]);
      }
      GrowsToLast(stores[1..]);
      assert IsSubsequence(stores[0], stores[0 + 1]);
      SubsequenceTransitive(stores[0], stores[1], stores[|stores| - 1]);
    }
  }

  lemma {:induction false} SelfSubsequence<T>(a: seq<T>)
    ensures IsSubsequence(a, a)
  {
    if a != [] {
      SelfSubsequence(a[1..]);
    }
  }

  lemma {:induction false} RemainingGrows<T>(a: seq<T>, b: seq<T>, cursor: Option<string>, key: T -> string)
    requires IsSubsequence(a, b) && DistinctKeys(b, key)
    requires cursor.Some? ==> HasKey(a, cursor.value, key)
    ensures IsSubsequence(Remaining(a, cursor, key), Remaining(b, cursor, key))
  {
    if cursor.Some? {
      AfterGrows(a, b, cursor.value, key);
    }
  }

  /**
   * Wherever rows are inserted between fetches, a finished walk returns every row that
   * followed the cursor at the start, and only rows that follow it at the end, in their
   * order; no row comes twice, since the last state has none twice.
   */
  lemma {:induction false} WalkSandwiched<T>(stores: seq<seq<T>>, cursor: Option<string>, limit: nat, key: T -> string)
    requires limit >= 1 && stores != [] && AllDistinct(stores, key) && Grows(stores)
    requires cursor.Some? ==> HasKey(stores[0], cursor.value, key)
    ensures Finished(stores, cursor, limit, key) ==>
              IsSubsequence(Remaining(stores[0], cursor, key), Walk(stores, cursor, limit, key))
    ensures IsSubsequence(Walk(stores, cursor, limit, key), Remaining(stores[|stores| - 1], cursor, key))
    decreases |stores|
  {
    var first, last := stores[0], stores[|stores| - 1];
    GrowsToLast(stores);
    RemainingGrows(first, last, cursor, key);
    SelfSubsequence(Remaining(first, cursor, key));
    if |Remaining(first, cursor, key)| <= limit {
      LastPage(stores, cursor, limit, key);
    } else {
      var next := FullPage(stores, cursor, limit, key);
      if |stores| == 1 {
        assert stores[1..] == [];
        PageAlone(Remaining(first, cursor, key), limit);
      } else {
        TailGrows(stores);
        SubsequenceKeepsKey(first, stores[1], next.value, key);
        WalkSandwiched(stores[1..], next, limit, key);
        NothingMissed(stores, cursor, limit, key, next);
        NothingExtra(stores, cursor, limit, key, next);
      }
    }
  }

  lemma {:induction false} PageAlone<T>(rest: seq<T>, limit: nat)
    requires limit <= |rest|
    ensures IsSubsequence(rest[..limit] + [], rest)
  {
    assert IsSubsequence([], rest[limit..]);
    SubsequenceBehind(rest[..limit], [], rest[limit..]);
    assert rest[..limit] + rest[limit..] == rest;
  }

  lemma {:induction false} NothingMissed<T>(stores: seq<seq<T>>, cursor: Option<string>, limit: nat, key: T -> string,
                                            next: Option<string>)
    requires limit >= 1 && |stores| > 1 && AllDistinct(stores, key) && Grows(stores)
    requires |Remaining(stores[0], cursor, key)| > limit
    requires next == Some(key(Remaining(stores[0], cursor, key)[limit - 1]))
    requires Finished(stores[1..], next, limit, key) ==>
               IsSubsequence(Remaining(stores[1], next, key), Walk(stores[1..], next, limit, key))
    ensures Finished(stores, cursor, limit, key) ==>
              IsSubsequence(Remaining(stores[0], cursor, key), Walk(stores, cursor, limit, key))
  {
    var rest := Remaining(stores[0], cursor, key);
    var c := FullPage(stores, cursor, limit, key);
    TailGrows(stores);
    var walk := Walk(stores[1..], next, limit, key);
    if Finished(stores[1..], next, limit, key) {
      RemainingGrows(stores[0], stores[1], next, key);
      PageInFront(rest, limit, Remaining(stores[1], next, key), walk);
    }
  }

  lemma {:induction false} PageInFront<T>(rest: seq<T>, limit: nat, later: seq<T>, walk: seq<T>)
    requires limit <= |rest| && IsSubsequence(rest[limit..], later) && IsSubsequence(later, walk)
    ensures IsSubsequence(rest, rest[..limit] + walk)
  {
    SubsequenceTransitive(rest[limit..], later, walk);
    SubsequenceBehind(rest[..limit], rest[limit..], walk);
    assert rest == rest[..limit] + rest[limit..];
  }

  lemma {:induction false} NothingExtra<T>(stores: seq<seq<T>>, cursor: Option<string>, limit: nat, key: T -> string,
                                           next: Option<string>)
    requires limit >= 1 && |stores| > 1 && AllDistinct(stores, key) && Grows(stores)
    requires cursor.Some? ==> HasKey(stores[0], cursor.value, key)
    requires |Remaining(stores[0], cursor, key)| > limit
    requires next == Some(key(Remaining(stores[0], cursor, key)[limit - 1]))
    requires IsSubsequence(Walk(stores[1..], next, limit, key), Remaining(stores[|stores| - 1], next, key))
    ensures IsSubsequence(Walk(stores, cursor, limit, key), Remaining(stores[|stores| - 1], cursor, key))
  {
    var last := stores[|stores| - 1];
    var rest, final := Remaining(stores[0], cursor, key), Remaining(last, cursor, key);
    var c := FullPage(stores, cursor, limit, key);
    GrowsToLast(stores);
    RemainingGrows(stores[0], last, cursor, key);
    RemainingDistinct(last, cursor, key);
    assert key(rest[limit - 1]) == next.value;
    SubsequenceKeepsKey(rest, final, next.value, key);
    if cursor.Some? {
      AfterAfter(last, cursor.value, next.value, key);
    }
    PageBehind(rest, limit, final, Walk(stores[1..], next, limit, key), key);
  }

  lemma {:induction false} PageBehind<T>(rest: seq<T>, limit: nat, final: seq<T>, walk: seq<T>, key: T -> string)
    requires 1 <= limit < |rest| && IsSubsequence(rest, final) && DistinctKeys(final, key)
    requires IsSubsequence(walk, After(final, key(rest[limit - 1]), key))
    ensures IsSubsequence(rest[..limit] + walk, final)
  {
    assert rest == rest[..limit] + rest[limit..];
    PageThenRest(rest[..limit], rest[limit..], final, walk, key);
  }

  lemma {:induction false} TailGrows<T>(stores: seq<seq<T>>)
    requires |stores| > 1 && Grows(stores)
    ensures Grows(stores[1..]) && IsSubsequence(stores[0], stores[1])
    ensures stores[1..][0] == stores[1] && stores[1..][|stores| - 2] == stores[|stores| - 1]
  {
    assert IsSubsequence(stores[0], stores[0 + 1]);
    forall i | 0 <= i < |stores[1..]| - 1
      ensures IsSubsequence(stores[1..][i], stores[1..][i + 1])
    {
      assert IsSubsequence(stores[i + 1], stores[i + 1 + 1]);
    }
  }

  lemma {:induction false} SubsequenceDistinct<T>(a: seq<T>, b: seq<T>, key: T -> string)
    requires IsSubsequence(a, b) && DistinctKeys(b, key)
    ensures DistinctKeys(a, key) && |a| <= |b|
    decreases b
  {
    if a != [] {
      if a[0] == b[0] {
        SubsequenceDistinct(a[1..], b[1..], key);
        forall j | 0 < j < |a|
          ensures key(a[0]) != key(a[j])
        {
          assert key(a[1..][j - 1]) == key(a[j]);
          SubsequenceKeepsKey(a[1..], b[1..], key(a[j]), key);
          var i :| 0 <= i < |b[1..]| && key(b[1..][i]) == key(a[j]);
          assert key(b[i + 1]) == key(a[j]);
        }
        forall i, j | 0 <= i < j < |a|
          ensures key(a[i]) != key(a[j])
        {
          if i > 0 {
            assert a[i] == a[1..][i - 1] && a[j] == a[1..][j - 1];
          }
        }
      } else {
        SubsequenceDistinct(a, b[1..], key);
      }
    }
  }

  lemma {:induction false} UnfinishedLength<T>(stores: seq<seq<T>>, cursor: Option<string>, limit: nat,
                                               key: T -> string)
    requires limit >= 1 && AllDistinct(stores, key) && !Finished(stores, cursor, limit, key)
    ensures |Walk(stores, cursor, limit, key)| == Capacity(|stores|, limit)
    decreases |stores|
  {
    if stores != [] {
      if |Remaining(stores[0], cursor, key)| <= limit {
        LastPage(stores, cursor, limit, key);
      }
      var next := FullPage(stores, cursor, limit, key);
      UnfinishedLength(stores[1..], next, limit, key);
    }
  }

  /** No walk over a growing store repeats a row, and enough fetches always finish it. */
  lemma {:induction false} WalkTerminates<T>(stores: seq<seq<T>>, cursor: Option<string>, limit: nat, key: T -> string)
    requires limit >= 1 && stores != [] && AllDistinct(stores, key) && Grows(stores)
    requires cursor.Some? ==> HasKey(stores[0], cursor.value, key)
    ensures DistinctKeys(Walk(stores, cursor, limit, key), key)
    ensures |Remaining(stores[|stores| - 1], cursor, key)| < |stores| * limit ==>
              Finished(stores, cursor, limit, key)
  {
    var last := stores[|stores| - 1];
    WalkSandwiched(stores, cursor, limit, key);
    RemainingDistinct(last, cursor, key);
    SubsequenceDistinct(Walk(stores, cursor, limit, key), Remaining(last, cursor, key), key);
    if !Finished(stores, cursor, limit, key) {
      UnfinishedLength(stores, cursor, limit, key);
      CapacityIsProduct(|stores|, limit);
    }
  }
}
