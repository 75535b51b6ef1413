/**
 * `RecordRepository::findByCriterion`: the list query over the record table.
 * The query builder's clauses mean: order by `(artist, title)` ascending; keep
 * the rows whose title contains the title filter when that filter is truthy,
 * and likewise for the artist, both conditions together; skip `offset` rows
 * when the offset is not 0; keep at most `limit` rows when the limit is not 0.
 * `LIKE '%t%'` is plain substring containment here, and strings compare by
 * character code.
 */
module RecordRepository {
  import opened Wrappers
  import opened PhpRuntime
  import opened RecordEntity
  import Pagination
  import RecordFilters

  // ---- text: containment and order ----

  predicate IsPrefix(t: string, s: string)
  {
    |t| <= |s| && s[..|t|] == t
  }

  /** `s LIKE '%t%'` without wildcards in `t`: `t` occurs somewhere in `s`. */
  predicate Contains(s: string, t: string)
  {
    IsPrefix(t, s) || (s != [] && Contains(s[1..], t))
  }

  /** `t` occurs in `s` at position `k`. */
  predicate OccursAt(s: string, t: string, k: int)
  {
    0 <= k <= |s| - |t| && s[k..k + |t|] == t
  }

  /** `Contains` is substring occurrence at some position. */
  lemma {:induction false} ContainsIff(s: string, t: string)
    ensures Contains(s, t) <==> exists k :: OccursAt(s, t, k)
  {
    if IsPrefix(t, s) {
      assert OccursAt(s, t, 0);
    } else if s == [] {
    } else {
      ContainsIff(s[1..], t);
      if exists k :: OccursAt(s, t, k) {
        var k :| OccursAt(s, t, k);
        assert k != 0;
        assert OccursAt(s[1..], t, k - 1) by {
          assert s[1..][k - 1..k - 1 + |t|] == s[k..k + |t|];
        }
      }
      if Contains(s[1..], t) {
        var k :| OccursAt(s[1..], t, k);
        assert OccursAt(s, t, k + 1) by {
          assert s[1..][k..k + |t|] == s[k + 1..k + 1 + |t|];
        }
      }
    }
  }

  /** Lexicographic order on strings, by character code. */
  predicate LexLe(a: string, b: string)
  {
    a == [] || (b != [] && (a[0] < b[0] || (a[0] == b[0] && LexLe(a[1..], b[1..]))))
  }

  lemma {:induction false} LexLeTotal(a: string, b: string)
    ensures LexLe(a, b) || LexLe(b, a)
  {
    if a != [] && b != [] && a[0] == b[0] {
      LexLeTotal(a[1..], b[1..]);
    }
  }

  lemma {:induction false} LexLeAntisymmetric(a: string, b: string)
    requires LexLe(a, b) && LexLe(b, a)
    ensures a == b
  {
    if a != [] {
      LexLeAntisymmetric(a[1..], b[1..]);
      assert a == [a[0]] + a[1..] && b == [b[0]] + b[1..];
    }
  }

  lemma {:induction false} LexLeTransitive(a: string, b: string, c: string)
    requires LexLe(a, b) && LexLe(b, c)
    ensures LexLe(a, c)
  {
    if a != [] && a[0] == b[0] && b[0] == c[0] {
      LexLeTransitive(a[1..], b[1..], c[1..]);
    }
  }

  // ---- the ORDER BY r.artist, r.title key ----

  /** `x` may come before `y`: by artist, and by title between equal artists. */
  predicate KeyLe(x: RecordData, y: RecordData)
  {
    if x.artist == y.artist then LexLe(x.title, y.title) else LexLe(x.artist, y.artist)
  }

  lemma KeyLeTotal(x: RecordData, y: RecordData)
    ensures KeyLe(x, y) || KeyLe(y, x)
  {
    LexLeTotal(x.artist, y.artist);
    LexLeTotal(x.title, y.title);
  }

  lemma KeyLeTransitive(x: RecordData, y: RecordData, z: RecordData)
    requires KeyLe(x, y) && KeyLe(y, z)
    ensures KeyLe(x, z)
  {
    if x.artist == y.artist && y.artist == z.artist {
      LexLeTransitive(x.title, y.title, z.title);
    } else if x.artist != y.artist && y.artist != z.artist {
      LexLeTransitive(x.artist, y.artist, z.artist);
      if x.artist == z.artist {
        LexLeAntisymmetric(y.artist, z.artist);
      }
    }
  }

  /** Every element of `s` may come after `y`. */
  predicate AllAbove(y: RecordData, s: seq<RecordData>)
  {
    forall i :: 0 <= i < |s| ==> KeyLe(y, s[i])
  }

  /** Ascending by `(artist, title)`. */
  predicate Sorted(s: seq<RecordData>)
  {
    forall i, j :: 0 <= i < j < |s| ==> KeyLe(s[i], s[j])
  }

  lemma SortedCons(y: RecordData, t: seq<RecordData>)
    requires AllAbove(y, t) && Sorted(t)
    ensures Sorted([y] + t)
  {
    var s := [y] + t;
    forall i, j | 0 <= i < j < |s| ensures KeyLe(s[i], s[j]) {
      if i > 0 {
        assert s[i] == t[i - 1] && s[j] == t[j - 1];
      } else {
        assert s[j] == t[j - 1];
      }
    }
  }

  // ---- ORDER BY: a stable insertion sort ----

  /** `x` inserted before the first element it may come before. */
  function Insert(x: RecordData, s: seq<RecordData>): (r: seq<RecordData>)
    ensures multiset(r) == multiset(s) + multiset{x}
  {
    if s == [] then [x]
    else if KeyLe(x, s[0]) then [x] + s
    else
      assert s == [s[0]] + s[1..];
      [s[0]] + Insert(x, s[1..])
  }

  /** The table ordered by `(artist, title)`; rows with equal keys keep their table order. */
  function OrderBy(s: seq<RecordData>): (r: seq<RecordData>)
    ensures multiset(r) == multiset(s)
  {
    if s == [] then []
    else
      assert s == [s[0]] + s[1..];
      Insert(s[0], OrderBy(s[1..]))
  }

  lemma {:induction false} InsertAbove(y: RecordData, x: RecordData, s: seq<RecordData>)
    requires AllAbove(y, s) && KeyLe(y, x)
    ensures AllAbove(y, Insert(x, s))
  {
    if s != [] && !KeyLe(x, s[0]) {
      InsertAbove(y, x, s[1..]);
    }
  }

  lemma {:induction false} InsertSorted(x: RecordData, s: seq<RecordData>)
    requires Sorted(s)
    ensures Sorted(Insert(x, s))
  {
    if s == [] {
    } else if KeyLe(x, s[0]) {
      forall i | 0 <= i < |s| ensures KeyLe(x, s[i]) {
        if i > 0 {
          KeyLeTransitive(x, s[0], s[i]);
        }
      }
      SortedCons(x, s);
    } else {
      KeyLeTotal(x, s[0]);
      assert AllAbove(s[0], s[1..]) by {
        forall i | 0 <= i < |s| - 1 ensures KeyLe(s[0], s[1..][i]) {
          assert s[1..][i] == s[i + 1];
        }
      }
      InsertAbove(s[0], x, s[1..]);
      InsertSorted(x, s[1..]);
      SortedCons(s[0], Insert(x, s[1..]));
    }
  }

  /** ORDER BY yields the table ascending by `(artist, title)`. */
  lemma {:induction false} OrderBySorted(s: seq<RecordData>)
    ensures Sorted(OrderBy(s))
  {
    if s != [] {
      OrderBySorted(s[1..]);
      InsertSorted(s[0], OrderBy(s[1..]));
    }
  }

  // ---- WHERE ----

  /** A row passes the WHERE clause: each truthy filter occurs in its column. */
  predicate MatchesFilters(r: RecordData, f: RecordFilters.Params)
  {
    && (Truthy(f.title) ==> Contains(r.title, f.title.value))
    && (Truthy(f.artist) ==> Contains(r.artist, f.artist.value))
  }

  /** The rows of `s` that pass the WHERE clause, in their order. */
  function Where(s: seq<RecordData>, f: RecordFilters.Params): (r: seq<RecordData>)
    ensures multiset(r) <= multiset(s)
    ensures forall i :: 0 <= i < |r| ==> MatchesFilters(r[i], f)
    ensures forall x :: x in s && MatchesFilters(x, f) ==> x in r
  {
    if s == [] then []
    else
      assert s == [s[0]] + s[1..];
      (if MatchesFilters(s[0], f) then [s[0]] else []) + Where(s[1..], f)
  }

  lemma {:induction false} WhereAbove(y: RecordData, s: seq<RecordData>, f: RecordFilters.Params)
    requires AllAbove(y, s)
    ensures AllAbove(y, Where(s, f))
  {
    if s != [] {
      WhereAbove(y, s[1..], f);
    }
  }

  /** Filtering keeps an ordered sequence ordered. */
  lemma {:induction false} WhereSorted(s: seq<RecordData>, f: RecordFilters.Params)
    requires Sorted(s)
    ensures Sorted(Where(s, f))
  {
    if s != [] {
      WhereSorted(s[1..], f);
      if MatchesFilters(s[0], f) {
        assert AllAbove(s[0], s[1..]) by {
          forall i | 0 <= i < |s| - 1 ensures KeyLe(s[0], s[1..][i]) {
            assert s[1..][i] == s[i + 1];
          }
        }
        WhereAbove(s[0], s[1..], f);
        SortedCons(s[0], Where(s[1..], f));
      }
    }
  }

  /** Falsy filters (`null`, `""`, `"0"`) leave every row in place. */
  lemma {:induction false} WhereUnfiltered(s: seq<RecordData>, f: RecordFilters.Params)
    requires !Truthy(f.title) && !Truthy(f.artist)
    ensures Where(s, f) == s
  {
    if s != [] {
      WhereUnfiltered(s[1..], f);
      assert s == [s[0]] + s[1..];
    }
  }

  // ---- OFFSET / LIMIT ----

  /**
   * `setFirstResult(offset)` when the offset is not 0, then
   * `setMaxResults(limit)` when the limit is not 0.
   */
  function Window(s: seq<RecordData>, offset: nat, limit: nat): (r: seq<RecordData>)
    ensures |r| == (var rest := if offset <= |s| then |s| - offset else 0;
                    if limit != 0 && limit < rest then limit else rest)
    ensures forall i :: 0 <= i < |r| ==> r[i] == s[offset + i]
  {
    var rest := if offset != 0 then s[(if offset <= |s| then offset else |s|)..] else s;
    if limit != 0 && limit < |rest| then rest[..limit] else rest
  }

  /** The window is a run of consecutive elements, so it adds nothing. */
  lemma WindowSubset(s: seq<RecordData>, offset: nat, limit: nat)
    ensures multiset(Window(s, offset, limit)) <= multiset(s)
  {
    var r := Window(s, offset, limit);
    if r != [] {
      assert r == s[offset..offset + |r|];
      assert s == s[..offset] + s[offset..offset + |r|] + s[offset + |r|..];
    }
  }

  /** The window of an ordered sequence is ordered. */
  lemma WindowSorted(s: seq<RecordData>, offset: nat, limit: nat)
    requires Sorted(s)
    ensures Sorted(Window(s, offset, limit))
  {
    var r := Window(s, offset, limit);
    forall i, j | 0 <= i < j < |r| ensures KeyLe(r[i], r[j]) {
      assert r[i] == s[offset + i] && r[j] == s[offset + j];
    }
  }

  // ---- the query ----

  /**
   * The records of the table `rows` that the list query returns. Negative
   * offsets and limits never reach the query; validation rejects them.
   */
  function FindByCriterion(rows: seq<RecordData>, p: Pagination.Params, f: RecordFilters.Params): (r: seq<RecordData>)
    requires Pagination.GetOffset(p) >= 0 && Pagination.GetLimit(p) >= 0
  {
    Window(Where(OrderBy(rows), f), Pagination.GetOffset(p), Pagination.GetLimit(p))
  }

  /**
   * What the list query returns: rows of the table, ascending by
   * `(artist, title)`, each containing every truthy filter, and at most
   * `limit` of them when the limit is not 0.
   */
  lemma FindByCriterionSpec(rows: seq<RecordData>, p: Pagination.Params, f: RecordFilters.Params)
    requires Pagination.GetOffset(p) >= 0 && Pagination.GetLimit(p) >= 0
    ensures var r := FindByCriterion(rows, p, f);
      && Sorted(r)
      && multiset(r) <= multiset(rows)
      && (forall i :: 0 <= i < |r| ==> MatchesFilters(r[i], f))
      && (Pagination.GetLimit(p) != 0 ==> |r| <= Pagination.GetLimit(p))
  {
    var ordered := OrderBy(rows);
    var filtered := Where(ordered, f);
    OrderBySorted(rows);
    WhereSorted(ordered, f);
    WindowSorted(filtered, Pagination.GetOffset(p), Pagination.GetLimit(p));
    WindowSubset(filtered, Pagination.GetOffset(p), Pagination.GetLimit(p));
  }

  /**
   * With no offset and no limit, every row that passes the filters is
   * returned, and with falsy filters as well the result is the whole table.
   */
  lemma FindByCriterionComplete(rows: seq<RecordData>, p: Pagination.Params, f: RecordFilters.Params)
    requires Pagination.GetOffset(p) == 0 && Pagination.GetLimit(p) == 0
    ensures forall x :: x in rows && MatchesFilters(x, f) ==> x in FindByCriterion(rows, p, f)
    ensures !Truthy(f.title) && !Truthy(f.artist) ==> multiset(FindByCriterion(rows, p, f)) == multiset(rows)
  {
    var ordered := OrderBy(rows);
    forall x | x in rows && MatchesFilters(x, f) ensures x in FindByCriterion(rows, p, f) {
      assert x in multiset(ordered);
    }
    if !Truthy(f.title) && !Truthy(f.artist) {
      WhereUnfiltered(ordered, f);
    }
  }
}
