/** The part of the relational store's query language the handlers use, on rows held in
    insertion order: a filter (`eq`, `or`/`ilike`), `order('created_at', descending)`,
    `range(from, to)` with both ends inclusive, and the exact count of filtered rows. */
module Query {
  import Js

  function Min(a: int, b: int): int {
    if a <= b then a else b
  }

  // ------------------------------------------------------------------ filter

  /** The rows of `s` that satisfy `keep`, in their original order. */
  function Filter<T>(s: seq<T>, keep: T -> bool): (r: seq<T>)
    ensures |r| <= |s|
    ensures forall i :: 0 <= i < |r| ==> r[i] in s && keep(r[i])
    ensures forall i :: 0 <= i < |s| && keep(s[i]) ==> s[i] in r
  {
    if s == [] then []
    else if keep(s[0]) then [s[0]] + Filter(s[1..], keep)
    else Filter(s[1..], keep)
  }

  lemma {:induction false} FilterAppend<T>(a: seq<T>, b: seq<T>, keep: T -> bool)
    ensures Filter(a + b, keep) == Filter(a, keep) + Filter(b, keep)
  {
    if a != [] {
      assert (a + b)[1..] == a[1..] + b;
      FilterAppend(a[1..], b, keep);
    } else {
      assert a + b == b;
    }
  }

  /** Filtering keeps every row the predicate accepts, as often as it occurs, and drops
      every other row: the result is a sub-multiset of exactly the accepted rows. */
  lemma {:induction false} FilterMultiset<T>(s: seq<T>, keep: T -> bool, x: T)
    ensures multiset(Filter(s, keep))[x] == if keep(x) then multiset(s)[x] else 0
  {
    if s != [] {
      assert s == [s[0]] + s[1..];
      FilterMultiset(s[1..], keep, x);
    }
  }

  /** A filter that rejects every row returns no row. */
  lemma {:induction false} FilterNone<T>(s: seq<T>, keep: T -> bool)
    requires forall i :: 0 <= i < |s| ==> !keep(s[i])
    ensures Filter(s, keep) == []
  {
    if s != [] {
      FilterNone(s[1..], keep);
    }
  }

  /** A filter that accepts every row returns all of them. */
  lemma {:induction false} FilterAll<T>(s: seq<T>, keep: T -> bool)
    requires forall i :: 0 <= i < |s| ==> keep(s[i])
    ensures Filter(s, keep) == s
  {
    if s != [] {
      FilterAll(s[1..], keep);
    }
  }

  /** Two predicates that agree on the rows of `s` select the same rows. */
  lemma {:induction false} FilterAgree<T>(s: seq<T>, p: T -> bool, q: T -> bool)
    requires forall x :: x in s ==> p(x) == q(x)
    ensures Filter(s, p) == Filter(s, q)
  {
    if s != [] {
      FilterAgree(s[1..], p, q);
    }
  }

  // ------------------------------------------------------- newest-first order

  /** No row is newer than a row before it. */
  ghost predicate NewestFirst<T>(s: seq<T>, stamp: T -> int) {
    forall i, j :: 0 <= i < j < |s| ==> stamp(s[i]) >= stamp(s[j])
  }

  /** Put `x` into a newest-first sequence, after every row at least as new. */
  function InsertByStamp<T>(s: seq<T>, x: T, stamp: T -> int): (r: seq<T>)
    ensures multiset(r) == multiset(s) + multiset{x}
  {
    if s == [] then [x]
    else if stamp(s[0]) >= stamp(x) then
      assert s == [s[0]] + s[1..];
      [s[0]] + InsertByStamp(s[1..], x, stamp)
    else
      [x] + s
  }

  lemma {:induction false} InsertKeepsOrder<T>(s: seq<T>, x: T, stamp: T -> int)
    requires NewestFirst(s, stamp)
    ensures NewestFirst(InsertByStamp(s, x, stamp), stamp)
  {
    if s != [] && stamp(s[0]) >= stamp(x) {
      var rest := InsertByStamp(s[1..], x, stamp);
      InsertKeepsOrder(s[1..], x, stamp);
      forall j | 0 <= j < |rest| ensures stamp(s[0]) >= stamp(rest[j]) {
        assert rest[j] in multiset(rest);
        if rest[j] != x {
          assert rest[j] in multiset(s[1..]);
          var k :| 0 <= k < |s[1..]| && s[1..][k] == rest[j];
          assert s[k + 1] == rest[j];
        }
      }
      var r := [s[0]] + rest;
      forall i, j | 0 <= i < j < |r| ensures stamp(r[i]) >= stamp(r[j]) {
        if i > 0 { assert r[i] == rest[i - 1] && r[j] == rest[j - 1]; }
        else { assert r[j] == rest[j - 1]; }
      }
    }
  }

  /** `order(stamp, { ascending: false })`. Rows with equal stamps keep their store order. */
  function SortNewest<T>(s: seq<T>, stamp: T -> int): (r: seq<T>)
    ensures NewestFirst(r, stamp)
    ensures multiset(r) == multiset(s)
  {
    if s == [] then []
    else
      var init := SortNewest(s[..|s| - 1], stamp);
      assert s == s[..|s| - 1] + [s[|s| - 1]];
      InsertKeepsOrder(init, s[|s| - 1], stamp);
      InsertByStamp(init, s[|s| - 1], stamp)
  }

  // ------------------------------------------------------------ range, pages

  /** `range(from, to)`: the rows at positions `from` to `to`, both included, of those there
      are. */
  function Range<T>(s: seq<T>, from: nat, to: int): (r: seq<T>)
    ensures |r| == if from <= to && from < |s| then Min(to + 1, |s|) - from else 0
    ensures forall i :: 0 <= i < |r| ==> r[i] == s[from + i]
  {
    if from <= to && from < |s| then s[from..Min(to + 1, |s|)] else []
  }

  /** The offset of a page: `(page - 1) * limit`. */
  function Offset(page: int, limit: int): (o: nat)
    requires page >= 1 && limit >= 1
  {
    (page - 1) * limit
  }

  /** Page `page` of `s` at `limit` rows per page: `range(offset, offset + limit - 1)`. */
  function Page<T>(s: seq<T>, page: int, limit: int): seq<T>
    requires page >= 1 && limit >= 1
  {
    var offset := Offset(page, limit);
    Range(s, offset, offset + limit - 1)
  }

  /** `Math.ceil(n / d)`: the fewest pages of `d` rows that hold `n` rows. */
  function CeilDiv(n: nat, d: nat): (r: nat)
    requires d >= 1
    ensures r * d >= n
    ensures r == 0 || (r - 1) * d < n
  {
    if n % d == 0 then n / d else n / d + 1
  }

  /** A range of a newest-first sequence is newest first. */
  lemma RangeKeepsOrder<T>(s: seq<T>, from: nat, to: int, stamp: T -> int)
    requires NewestFirst(s, stamp)
    ensures NewestFirst(Range(s, from, to), stamp)
  {
    var r := Range(s, from, to);
    forall i, j | 0 <= i < j < |r| ensures stamp(r[i]) >= stamp(r[j]) {
      assert r[i] == s[from + i] && r[j] == s[from + j];
    }
  }

  /** A page holds at most `limit` rows, and they are consecutive rows of `s`. */
  lemma PageBounds<T>(s: seq<T>, page: int, limit: int)
    requires page >= 1 && limit >= 1
    ensures |Page(s, page, limit)| <= limit
    ensures forall i :: 0 <= i < |Page(s, page, limit)| ==>
      Page(s, page, limit)[i] == s[Offset(page, limit) + i]
  {
  }

  /** Sorting keeps the number of rows, and a page of the sorted rows holds at most
      `limit` of them, newest first, each one of the unsorted rows. */
  lemma PageOfSorted<T>(s: seq<T>, stamp: T -> int, page: int, limit: int)
    requires page >= 1 && limit >= 1
    ensures |SortNewest(s, stamp)| == |s|
    ensures var data := Page(SortNewest(s, stamp), page, limit);
      && |data| <= limit
      && NewestFirst(data, stamp)
      && forall i :: 0 <= i < |data| ==> data[i] in s
  {
    var m := SortNewest(s, stamp);
    SortedLength(s, stamp);
    var o := Offset(page, limit);
    RangeKeepsOrder(m, o, o + limit - 1, stamp);
    PageRowsFrom(m, page, limit);
    SortedRowsFrom(s, stamp);
  }

  lemma SortedLength<T>(s: seq<T>, stamp: T -> int)
    ensures |SortNewest(s, stamp)| == |s|
  {
    var m := SortNewest(s, stamp);
    assert |m| == |multiset(m)| == |multiset(s)| == |s|;
  }

  lemma SortedRowsFrom<T>(s: seq<T>, stamp: T -> int)
    ensures forall x :: x in SortNewest(s, stamp) ==> x in s
  {
    var m := SortNewest(s, stamp);
    forall x | x in m ensures x in s {
      assert x in multiset(m);
    }
  }

  lemma PageRowsFrom<T>(s: seq<T>, page: int, limit: int)
    requires page >= 1 && limit >= 1
    ensures |Page(s, page, limit)| <= limit
    ensures forall x :: x in Page(s, page, limit) ==> x in s
  {
    var data := Page(s, page, limit);
    var o := Offset(page, limit);
    forall x | x in data ensures x in s {
      var i :| 0 <= i < |data| && data[i] == x;
      assert s[o + i] == x;
    }
  }

  /** Every row lies on exactly one page: row `k` is row `k % limit` of page `k / limit + 1`,
      and that page is one of the `CeilDiv(|s|, limit)` pages the reply announces. */
  lemma {:induction false} RowOnPage<T>(s: seq<T>, limit: int, k: nat)
    requires limit >= 1 && k < |s|
    ensures var p := k / limit + 1;
      1 <= p <= CeilDiv(|s|, limit)
      && k % limit < |Page(s, p, limit)|
      && Page(s, p, limit)[k % limit] == s[k]
  {
    var p := k / limit + 1;
    var o := Offset(p, limit);
    assert o == (k / limit) * limit;
    assert o + k % limit == k;
    var t := CeilDiv(|s|, limit);
    assert p <= t by {
      if p > t {
        assert t * limit <= (p - 1) * limit by { MulMonotone(t, p - 1, limit); }
        assert false;
      }
    }
  }

  /** Pages after the last announced one are empty, and the announced pages are not. */
  lemma {:induction false} PagesAnnounced<T>(s: seq<T>, page: int, limit: int)
    requires page >= 1 && limit >= 1
    ensures Page(s, page, limit) == [] <==> page > CeilDiv(|s|, limit)
  {
    var t := CeilDiv(|s|, limit);
    var o := Offset(page, limit);
    if page > t {
      MulMonotone(t, page - 1, limit);
    } else {
      MulMonotone(page, t, limit);
      assert (page - 1) * limit <= (t - 1) * limit by { MulMonotone(page - 1, t - 1, limit); }
    }
  }

  lemma MulMonotone(a: nat, b: nat, c: nat)
    requires a <= b
    ensures a * c <= b * c
  {
  }

  /** With 13 matching rows and 12 rows per page, page 2 holds exactly the last row and the
      reply announces two pages. */
  lemma SecondPageOfThirteen<T>(s: seq<T>)
    requires |s| == 13
    ensures Page(s, 2, 12) == [s[12]]
    ensures CeilDiv(|s|, 12) == 2
  {
  }

  // ------------------------------------------- range end from query strings

  /** `offset + limit - 1` when `limit` is the query-string text of a number, as it is
      for every request that passes `?limit=`: `+` concatenates the offset's digits and
      the limit's text, and `-` reads the result back as a number. */
  function RangeEndFromText(offset: nat, limit: nat): int {
    var text := Js.DecimalDigits(offset) + Js.DecimalDigits(limit);
    Js.AllDigitsAppend(Js.DecimalDigits(offset), Js.DecimalDigits(limit), 10);
    Js.ValueOf(text, 10) - 1
  }

  /** On the first page the offset is 0 and the concatenation "0" + limit still reads as
      the limit, so the first page has the right rows. */
  lemma FirstPageFromText(limit: nat)
    ensures RangeEndFromText(0, limit) == limit - 1
  {
    Js.ValueOfDecimalDigits(limit);
    Js.ValueOfLeadingZero(Js.DecimalDigits(limit));
    assert Js.DecimalDigits(0) == "0";
  }

  /** On the second page at 12 rows per page the range ends at row 1211 instead of 23:
      with 30 matching rows the page holds 18 rows, all the rows after the first page,
      where `Page` holds 12. */
  lemma SecondPageFromText<T>(s: seq<T>)
    requires |s| == 30
    ensures RangeEndFromText(12, 12) == 1211
    ensures |Range(s, Offset(2, 12), RangeEndFromText(12, 12))| == 18
    ensures |Page(s, 2, 12)| == 12
  {
    var d := Js.DecimalDigits(12);
    assert d == "12" by {
      assert Js.DecimalDigits(1) == "1";
    }
    assert "1212"[..3] == "121" && "121"[..2] == "12" && "12"[..1] == "1" && "1"[..0] == "";
    assert Js.ValueOf("1212", 10) == 1212;
    assert d + d == "1212";
    assert RangeEndFromText(12, 12) == 1211;
  }
}
