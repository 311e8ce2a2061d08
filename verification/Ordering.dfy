/** ORDER BY, LIMIT and OFFSET over a set of rows. */
module Ordering {
  import opened Wrappers

  /** Lexicographic order. */
  predicate LexLess(a: seq<int>, b: seq<int>) {
    b != [] && (a == [] || a[0] < b[0] || (a[0] == b[0] && LexLess(a[1..], b[1..])))
  }

  lemma {:induction false} LexTransitive(a: seq<int>, b: seq<int>, c: seq<int>)
    requires LexLess(a, b) && LexLess(b, c)
    ensures LexLess(a, c)
  {
    if a == [] || a[0] < b[0] || b[0] < c[0] {
    } else {
      LexTransitive(a[1..], b[1..], c[1..]);
    }
  }

  lemma {:induction false} LexTrichotomy(a: seq<int>, b: seq<int>)
    ensures !(LexLess(a, b) && LexLess(b, a))
    ensures !LexLess(a, a)
    ensures a == b || LexLess(a, b) || LexLess(b, a)
  {
    if a == [] {
    } else if b == [] {
      LexTrichotomy(a[1..], a[1..]);
    } else {
      LexTrichotomy(a[1..], a[1..]);
      LexTrichotomy(a[1..], b[1..]);
      assert a == [a[0]] + a[1..] && b == [b[0]] + b[1..];
    }
  }

  /** `less` puts the rows of `rows` in a strict total order. */
  ghost predicate OrdersTotally<T(!new)>(less: (T, T) -> bool, rows: set<T>) {
    && (forall a | a in rows :: !less(a, a))
    && (forall a, b | a in rows && b in rows && a != b :: less(a, b) || less(b, a))
    && (forall a, b, c | a in rows && b in rows && c in rows && less(a, b) && less(b, c) :: less(a, c))
  }

  /** `out` lists every row of `rows` and no other, each after all smaller ones. */
  ghost predicate Arranges<T(!new)>(less: (T, T) -> bool, rows: set<T>, out: seq<T>) {
    && (forall a :: a in out <==> a in rows)
    && (forall i, j | 0 <= i < j < |out| :: less(out[i], out[j]))
  }

  lemma {:induction false} LeastExists<T(!new)>(less: (T, T) -> bool, rows: set<T>) returns (least: T)
    requires OrdersTotally(less, rows) && rows != {}
    ensures least in rows && forall a | a in rows :: a == least || less(least, a)
  {
    var x :| x in rows;
    var rest := rows - {x};
    if rest == {} {
      assert rows == {x};
      least := x;
    } else {
      least := LeastExists(less, rest);
      if less(x, least) {
        least := x;
      }
      assert rows == rest + {x};
    }
  }

  /** Under a strict total order the arrangement exists. */
  lemma {:induction false} Arrangement<T(!new)>(less: (T, T) -> bool, rows: set<T>) returns (out: seq<T>)
    requires OrdersTotally(less, rows)
    ensures Arranges(less, rows, out) && |out| == |rows|
  {
    if rows == {} {
      out := [];
    } else {
      var least := LeastExists(less, rows);
      var tail := Arrangement(less, rows - {least});
      out := [least] + tail;
      assert rows == (rows - {least}) + {least};
    }
  }

  lemma TailArranges<T(!new)>(less: (T, T) -> bool, rows: set<T>, out: seq<T>)
    requires OrdersTotally(less, rows) && Arranges(less, rows, out) && out != []
    ensures Arranges(less, rows - {out[0]}, out[1..])
  {
    forall a ensures a in out[1..] <==> a in rows - {out[0]} {
      if a in out[1..] {
        var i :| 0 <= i < |out[1..]| && out[1..][i] == a;
        assert less(out[0], out[i + 1]);
      }
    }
  }

  lemma {:induction false} ArrangementLength<T(!new)>(less: (T, T) -> bool, rows: set<T>, out: seq<T>)
    requires OrdersTotally(less, rows) && Arranges(less, rows, out)
    ensures |out| == |rows|
    decreases |out|
  {
    if out == [] {
      assert rows == {};
    } else {
      TailArranges(less, rows, out);
      ArrangementLength(less, rows - {out[0]}, out[1..]);
      assert out[0] in rows;
    }
  }

  /** There is no other arrangement. */
  lemma {:induction false} ArrangementIsUnique<T(!new)>(less: (T, T) -> bool, rows: set<T>, a: seq<T>, b: seq<T>)
    requires OrdersTotally(less, rows) && Arranges(less, rows, a) && Arranges(less, rows, b)
    ensures a == b
    decreases |a|
  {
    ArrangementLength(less, rows, a);
    ArrangementLength(less, rows, b);
    if a == [] {
    } else {
      assert a[0] in b && b != [] && b[0] in a;
      assert a[0] == b[0];
      var rest := rows - {a[0]};
      TailArranges(less, rows, a);
      TailArranges(less, rows, b);
      ArrangementIsUnique(less, rest, a[1..], b[1..]);
      assert a == [a[0]] + a[1..] && b == [b[0]] + b[1..];
    }
  }

  // ---------------------------------------------------------------- pages

  /** LIMIT pageSize OFFSET (page - 1) * pageSize. */
  function PageOf<T>(rows: seq<T>, page: nat, pageSize: nat): seq<T>
    requires page >= 1 && pageSize >= 1
  {
    var offset := (page - 1) * pageSize;
    var from := Min(offset, |rows|);
    rows[from..Min(from + pageSize, |rows|)]
  }

  function TotalPages(totalItems: nat, pageSize: nat): nat
    requires pageSize >= 1
  {
    if totalItems == 0 then 0 else (totalItems + pageSize - 1) / pageSize
  }

  /** The first `pages` pages one after the other. */
  function FirstPages<T>(rows: seq<T>, pages: nat, pageSize: nat): seq<T>
    requires pageSize >= 1
  {
    if pages == 0 then [] else FirstPages(rows, pages - 1, pageSize) + PageOf(rows, pages, pageSize)
  }

  lemma OneMorePage<T>(rows: seq<T>, offset: nat, pageSize: nat)
    ensures var from := Min(offset, |rows|);
            rows[..from] + rows[from..Min(from + pageSize, |rows|)] == rows[..Min(offset + pageSize, |rows|)]
  {
  }

  lemma NextMultiple(n: nat, size: nat)
    requires n >= 1
    ensures n * size == (n - 1) * size + size
  {
  }

  lemma PageAtOffset<T>(rows: seq<T>, page: nat, pageSize: nat, offset: nat)
    requires page >= 1 && pageSize >= 1 && offset == (page - 1) * pageSize
    ensures var from := Min(offset, |rows|);
            PageOf(rows, page, pageSize) == rows[from..Min(from + pageSize, |rows|)]
  {
  }

  lemma {:induction false} FirstPagesEndAt<T>(rows: seq<T>, pages: nat, pageSize: nat, end: nat)
    requires pageSize >= 1 && end == pages * pageSize
    ensures FirstPages(rows, pages, pageSize) == rows[..Min(end, |rows|)]
  {
    if pages == 0 {
    } else {
      NextMultiple(pages, pageSize);
      var offset := end - pageSize;
      FirstPagesEndAt(rows, pages - 1, pageSize, offset);
      PageAtOffset(rows, pages, pageSize, offset);
      OneMorePage(rows, offset, pageSize);
    }
  }

  lemma TotalPagesCovers(totalItems: nat, pageSize: nat)
    requires pageSize >= 1
    ensures TotalPages(totalItems, pageSize) * pageSize >= totalItems
    ensures TotalPages(totalItems, pageSize) * pageSize < totalItems + pageSize
  {
    if totalItems > 0 {
      var n := totalItems + pageSize - 1;
      assert n == (n / pageSize) * pageSize + n % pageSize;
    }
  }

  lemma MultiplesGrow(a: nat, b: nat, size: nat)
    requires a <= b
    ensures a * size <= b * size
  {
  }

  lemma PageIsEmptyBeyond<T>(rows: seq<T>, pageSize: nat, page: nat)
    requires pageSize >= 1 && page >= 1
    ensures PageOf(rows, page, pageSize) == [] <==> page > TotalPages(|rows|, pageSize)
  {
    var total := TotalPages(|rows|, pageSize);
    TotalPagesCovers(|rows|, pageSize);
    if page > total {
      MultiplesGrow(total, page - 1, pageSize);
    } else {
      MultiplesGrow(page, total, pageSize);
      assert (page - 1) * pageSize == page * pageSize - pageSize;
      assert (page - 1) * pageSize < |rows|;
    }
  }

  /** The pages from the first to the last reported one are the whole list, none of them is empty,
      and every page after them is. */
  lemma PagesPartition<T>(rows: seq<T>, pageSize: nat, page: nat)
    requires pageSize >= 1 && page >= 1
    ensures FirstPages(rows, TotalPages(|rows|, pageSize), pageSize) == rows
    ensures PageOf(rows, page, pageSize) == [] <==> page > TotalPages(|rows|, pageSize)
    ensures |PageOf(rows, page, pageSize)| <= pageSize
  {
    TotalPagesCovers(|rows|, pageSize);
    var total := TotalPages(|rows|, pageSize);
    FirstPagesEndAt(rows, total, pageSize, total * pageSize);
    PageIsEmptyBeyond(rows, pageSize, page);
  }
}
