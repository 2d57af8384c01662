/** Pagination over the visible rows: the page count, the page pass of showCurrentPage,
    the "Showing a-b of n" line and the Previous / numbers / Next controls. */
module Paging {
  import opened Rows

  /** getTotalPages (`Math.ceil(n / perPage) || 1`) and the count in updatePagination
      (`Math.max(1, Math.ceil(n / perPage))`), which agree for a positive page size. */
  function TotalPagesOf(count: nat, perPage: nat): (pages: nat)
    requires perPage > 0
    ensures pages >= 1
    ensures count == 0 ==> pages == 1
  {
    if count == 0 then 1 else (count + perPage - 1) / perPage
  }

  /** The page count is the least number of pages of `perPage` rows that holds `count`
      rows: the last page holds at least one row and at most `perPage`. */
  lemma TotalPagesFit(count: nat, perPage: nat)
    requires perPage > 0 && count > 0
    ensures var pages := TotalPagesOf(count, perPage);
      (pages - 1) * perPage < count <= pages * perPage
  {
    var q := (count + perPage - 1) / perPage;
    var m := (count + perPage - 1) % perPage;
    assert count + perPage - 1 == q * perPage + m;
    assert (q - 1) * perPage == q * perPage - perPage;
  }

  /** updatePagination's reset: the current page is kept while it exists and is sent back
      to page 1 when it lies past the last page. */
  function PageAfter(page: nat, count: nat, perPage: nat): (p: nat)
    requires perPage > 0
    ensures page >= 1 ==> 1 <= p <= TotalPagesOf(count, perPage)
    ensures page <= TotalPagesOf(count, perPage) ==> p == page
    ensures page > TotalPagesOf(count, perPage) ==> p == 1
  {
    if page > TotalPagesOf(count, perPage) then 1 else page
  }

  // ---- The page pass ----

  /** The position of row `i` among the visible rows (its index in visibleRows). */
  function Rank(rs: seq<Record>, i: nat): nat
    requires i <= |rs|
  {
    |VisibleRows(rs[..i])|
  }

  lemma RankStep(rs: seq<Record>, i: nat)
    requires i < |rs|
    ensures Rank(rs, i + 1) == Rank(rs, i) + (if rs[i].visible then 1 else 0)
  {
    assert rs[..i + 1][..i] == rs[..i];
  }

  /** showCurrentPage with the window [lo, hi): a visible row is shown exactly when its
      rank lies in the window; every other row is hidden. */
  function Paged(rs: seq<Record>, lo: nat, hi: nat): seq<Record> {
    seq(|rs|, i requires 0 <= i < |rs| => rs[i].(shown := rs[i].visible && lo <= Rank(rs, i) < hi))
  }

  /** The loop of showCurrentPage over the rows with the window [lo, hi): count the visible
      rows; show a visible row whose count lies in the window, hide every other row. */
  method PagePass(rows: seq<Record>, lo: nat, hi: nat) returns (out: seq<Record>)
    ensures out == Paged(rows, lo, hi)
  {
    out := rows;
    var i := 0;
    var index := 0;
    while i < |out|
      invariant 0 <= i <= |out| == |rows|
      invariant index == Rank(rows, i)
      invariant forall j :: 0 <= j < i ==> out[j] == rows[j].(shown := rows[j].visible && lo <= Rank(rows, j) < hi)
      invariant forall j :: i <= j < |out| ==> out[j] == rows[j]
    {
      RankStep(rows, i);
      if out[i].visible {
        out := out[i := out[i].(shown := lo <= index < hi)];
        index := index + 1;
      } else {
        out := out[i := out[i].(shown := false)];
      }
      i := i + 1;
    }
  }

  /** The shown flags are those of the window [lo, hi). */
  ghost predicate ShowsWindow(rs: seq<Record>, lo: nat, hi: nat) {
    forall i :: 0 <= i < |rs| ==> rs[i].shown == (rs[i].visible && lo <= Rank(rs, i) < hi)
  }

  /** `s.slice(lo, hi)`. */
  function Clip(s: seq<Record>, lo: nat, hi: nat): seq<Record>
    requires lo <= hi
  {
    if lo >= |s| then [] else s[lo..if hi < |s| then hi else |s|]
  }

  /** Rows with the same visible flags have the same number of visible rows. */
  lemma {:induction false} SameFlagsSameCount(a: seq<Record>, b: seq<Record>)
    requires |a| == |b| && forall i :: 0 <= i < |a| ==> a[i].visible == b[i].visible
    ensures |VisibleRows(a)| == |VisibleRows(b)|
  {
    if a != [] {
      SameFlagsSameCount(a[..|a| - 1], b[..|b| - 1]);
    }
  }

  /** The page pass only touches the shown flags, and leaves them in the window's shape. */
  lemma PagedShowsWindow(rs: seq<Record>, lo: nat, hi: nat)
    ensures |Paged(rs, lo, hi)| == |rs|
    ensures forall i :: 0 <= i < |rs| ==> Paged(rs, lo, hi)[i].(shown := rs[i].shown) == rs[i]
    ensures |VisibleRows(Paged(rs, lo, hi))| == |VisibleRows(rs)|
    ensures ShowsWindow(Paged(rs, lo, hi), lo, hi)
    ensures SameNodes(rs, Paged(rs, lo, hi))
  {
    var p := Paged(rs, lo, hi);
    SameFlagsSameCount(p, rs);
    forall i | 0 <= i < |rs| ensures Rank(p, i) == Rank(rs, i) {
      SameFlagsSameCount(p[..i], rs[..i]);
    }
  }

  /** The displayed rows are exactly the slice [lo, hi) of the visible rows, in order. */
  lemma {:induction false} WindowIsSlice(rs: seq<Record>, lo: nat, hi: nat)
    requires lo <= hi && ShowsWindow(rs, lo, hi)
    ensures ShownRows(rs) == Clip(VisibleRows(rs), lo, hi)
  {
    if rs != [] {
      var p := rs[..|rs| - 1];
      var x := rs[|rs| - 1];
      assert ShowsWindow(p, lo, hi) by {
        forall i | 0 <= i < |p| ensures p[i].shown == (p[i].visible && lo <= Rank(p, i) < hi) {
          assert p[..i] == rs[..i];
        }
      }
      WindowIsSlice(p, lo, hi);
      var v := VisibleRows(p);
      assert Rank(rs, |rs| - 1) == |v| by { assert rs[..|rs| - 1] == p; }
      if x.visible {
        ClipSnoc(v, x, lo, hi);
      }
    }
  }

  /** One more visible row extends the slice exactly when its count lies in [lo, hi). */
  lemma ClipSnoc(v: seq<Record>, x: Record, lo: nat, hi: nat)
    requires lo <= hi
    ensures Clip(v + [x], lo, hi) == if lo <= |v| < hi then Clip(v, lo, hi) + [x] else Clip(v, lo, hi)
  {
    var n := |v|;
    if lo <= n < hi {
      if n == lo {
        assert Clip(v + [x], lo, hi) == [x];
      } else {
        assert Clip(v, lo, hi) == v[lo..];
        assert (v + [x])[lo..n + 1] == v[lo..] + [x];
      }
    } else if n >= hi {
      assert (v + [x])[lo..hi] == v[lo..hi];
    }
  }

  /** Page `page` (1-based) of `perPage` rows is the window [(page-1)*perPage, page*perPage). */
  function PageStart(page: nat, perPage: nat): nat {
    if page == 0 then 0 else (page - 1) * perPage
  }

  function PageEnd(page: nat, perPage: nat): nat {
    PageStart(page, perPage) + perPage
  }

  /** A page within the page count of a non-empty result shows at least one row, and
      never more than `perPage`. */
  lemma PageNotEmpty(rs: seq<Record>, page: nat, perPage: nat)
    requires perPage > 0 && 1 <= page <= TotalPagesOf(|VisibleRows(rs)|, perPage)
    requires ShowsWindow(rs, PageStart(page, perPage), PageEnd(page, perPage))
    requires VisibleRows(rs) != []
    ensures 0 < |ShownRows(rs)| <= perPage
  {
    var n := |VisibleRows(rs)|;
    var total := TotalPagesOf(n, perPage);
    var lo, hi := PageStart(page, perPage), PageEnd(page, perPage);
    TotalPagesFit(n, perPage);
    StartBelowCount(page, total, perPage, n);
    WindowIsSlice(rs, lo, hi);
    var v := VisibleRows(rs);
    assert lo < |v| && hi == lo + perPage;
    assert |Clip(v, lo, hi)| == (if hi < |v| then hi else |v|) - lo;
  }

  /** A page no later than the last starts before the end of the rows. */
  lemma StartBelowCount(page: nat, total: nat, perPage: nat, n: nat)
    requires 1 <= page <= total && (total - 1) * perPage < n
    ensures PageStart(page, perPage) < n
  {
    MulMonotone(page - 1, total - 1, perPage);
  }

  lemma MulMonotone(a: nat, b: nat, c: nat)
    requires a <= b
    ensures a * c <= b * c
  {
    assert b * c == a * c + (b - a) * c;
  }

  // ---- The pagination line ----

  /** The text of .pagination-info: "No alumni to display", "Showing a-b of n alumni", or
      "Showing m of n alumni (filtered)". */
  datatype PageInfo = NoAlumni | Showing(first: nat, last: nat, total: nat) | FilteredCount(matching: nat, all: nat)

  /** updatePagination's line: first is (page-1)*perPage+1, last is min(page*perPage, count). */
  function InfoFor(page: nat, perPage: nat, count: nat): PageInfo {
    if count == 0 then NoAlumni
    else
      var last := if page * perPage < count then page * perPage else count;
      Showing(PageStart(page, perPage) + 1, last, count)
  }

  /** On a valid page, the line counts exactly the rows displayed: a-b with 1 <= a <= b <= n
      and b - a + 1 rows shown. */
  lemma InfoCountsShownRows(rs: seq<Record>, page: nat, perPage: nat)
    requires perPage > 0 && 1 <= page <= TotalPagesOf(|VisibleRows(rs)|, perPage)
    requires ShowsWindow(rs, PageStart(page, perPage), PageEnd(page, perPage))
    requires VisibleRows(rs) != []
    ensures InfoFor(page, perPage, |VisibleRows(rs)|).Showing?
    ensures var info := InfoFor(page, perPage, |VisibleRows(rs)|);
      1 <= info.first <= info.last <= info.total == |VisibleRows(rs)|
      && info.last - info.first + 1 == |ShownRows(rs)|
  {
    PageNotEmpty(rs, page, perPage);
    WindowIsSlice(rs, PageStart(page, perPage), PageEnd(page, perPage));
  }

  // ---- The pagination controls ----

  /** One element of .pagination-controls. */
  datatype Control = Previous(disabled: bool) | PageButton(page: nat, active: bool) | Dots | Next(disabled: bool)

  /** Numbered buttons lo..hi, the one equal to `current` marked active. */
  function Buttons(lo: nat, hi: nat, current: nat): seq<Control> {
    if hi < lo then [] else seq(hi - lo + 1, k requires 0 <= k < hi - lo + 1 => PageButton(lo + k, lo + k == current))
  }

  /** `Math.max(1, current - 2)` and `Math.min(total, current + 2)`. */
  function WindowStart(current: nat): nat {
    if current >= 3 then current - 2 else 1
  }

  function WindowEnd(current: nat, total: nat): nat {
    if current + 2 <= total then current + 2 else total
  }

  /** Before the window: page 1 when the window starts later, and dots when it starts
      past page 2. */
  function Lead(start: nat): seq<Control> {
    if start > 1 then [PageButton(1, false)] + (if start > 2 then [Dots] else []) else []
  }

  /** After the window: dots when it ends before the second-to-last page, and the last
      page when it ends earlier. */
  function Tail(end: nat, total: nat): seq<Control> {
    if end < total then (if end + 1 < total then [Dots] else []) + [PageButton(total, false)] else []
  }

  /** The numbered part: every page when there are at most five; otherwise the window
      around the current page with its lead and tail. */
  function PageNumbers(current: nat, total: nat): seq<Control> {
    if total <= 5 then Buttons(1, total, current)
    else Lead(WindowStart(current)) + Buttons(WindowStart(current), WindowEnd(current, total), current)
         + Tail(WindowEnd(current, total), total)
  }

  /** The whole control row: Previous, the numbers, Next. */
  function PageControls(current: nat, total: nat): seq<Control> {
    [Previous(current == 1)] + PageNumbers(current, total) + [Next(current == total)]
  }

  /** The page numbers of the active buttons, in order. */
  function ActivePages(cs: seq<Control>): seq<nat> {
    if cs == [] then []
    else (if cs[0].PageButton? && cs[0].active then [cs[0].page] else []) + ActivePages(cs[1..])
  }

  /** The page numbers of all buttons, in order. */
  function Pages(cs: seq<Control>): seq<nat> {
    if cs == [] then [] else (if cs[0].PageButton? then [cs[0].page] else []) + Pages(cs[1..])
  }

  /** The pages lo..hi. */
  function Range(lo: nat, hi: nat): (r: seq<nat>)
    ensures |r| == if hi < lo then 0 else hi - lo + 1
    ensures forall k :: 0 <= k < |r| ==> r[k] == lo + k
  {
    if hi < lo then [] else seq(hi - lo + 1, k requires 0 <= k < hi - lo + 1 => lo + k)
  }

  predicate Increasing(ps: seq<nat>) {
    forall i, j :: 0 <= i < j < |ps| ==> ps[i] < ps[j]
  }

  lemma {:induction false} ActivePagesAppend(a: seq<Control>, b: seq<Control>)
    ensures ActivePages(a + b) == ActivePages(a) + ActivePages(b)
  {
    if a == [] {
      assert a + b == b;
    } else {
      assert (a + b)[0] == a[0];
      assert (a + b)[1..] == a[1..] + b;
      ActivePagesAppend(a[1..], b);
    }
  }

  lemma {:induction false} PagesAppend(a: seq<Control>, b: seq<Control>)
    ensures Pages(a + b) == Pages(a) + Pages(b)
  {
    if a == [] {
      assert a + b == b;
    } else {
      assert (a + b)[0] == a[0];
      assert (a + b)[1..] == a[1..] + b;
      PagesAppend(a[1..], b);
    }
  }

  /** Buttons lo..hi list exactly those pages, and only `current` among them is active. */
  lemma {:induction false} ButtonsPages(lo: nat, hi: nat, current: nat)
    ensures Pages(Buttons(lo, hi, current)) == Range(lo, hi)
    ensures ActivePages(Buttons(lo, hi, current)) == if lo <= current <= hi then [current] else []
    decreases hi - lo + 1
  {
    if lo <= hi {
      ButtonsCons(lo, hi, current);
      ButtonsPages(lo + 1, hi, current);
      assert Range(lo, hi) == [lo] + Range(lo + 1, hi);
      PagesAppend([PageButton(lo, lo == current)], Buttons(lo + 1, hi, current));
      ActivePagesAppend([PageButton(lo, lo == current)], Buttons(lo + 1, hi, current));
    }
  }

  /** A non-empty run of buttons is its first button followed by the rest. */
  lemma ButtonsCons(lo: nat, hi: nat, current: nat)
    requires lo <= hi
    ensures Buttons(lo, hi, current) == [PageButton(lo, lo == current)] + Buttons(lo + 1, hi, current)
  {
    var a, b := Buttons(lo, hi, current), [PageButton(lo, lo == current)] + Buttons(lo + 1, hi, current);
    assert |a| == |b|;
    forall k | 0 <= k < |a| ensures a[k] == b[k] {
      if k > 0 { assert b[k] == Buttons(lo + 1, hi, current)[k - 1]; }
    }
  }

  lemma LeadPages(start: nat)
    ensures Pages(Lead(start)) == if start > 1 then [1] else []
    ensures ActivePages(Lead(start)) == []
  {
    if start > 2 {
      PagesAppend([PageButton(1, false)], [Dots]);
      ActivePagesAppend([PageButton(1, false)], [Dots]);
    }
  }

  lemma TailPages(end: nat, total: nat)
    ensures Pages(Tail(end, total)) == if end < total then [total] else []
    ensures ActivePages(Tail(end, total)) == []
  {
    if end + 1 < total {
      PagesAppend([Dots], [PageButton(total, false)]);
      ActivePagesAppend([Dots], [PageButton(total, false)]);
    }
  }

  /** The pages listed by the numbered part, written out. */
  lemma NumbersPages(current: nat, total: nat)
    ensures Pages(PageNumbers(current, total)) ==
      if total <= 5 then Range(1, total)
      else
        var s, e := WindowStart(current), WindowEnd(current, total);
        (if s > 1 then [1] else []) + Range(s, e) + (if e < total then [total] else [])
  {
    var s, e := WindowStart(current), WindowEnd(current, total);
    ButtonsPages(1, total, current);
    if total > 5 {
      PagesAppend(Lead(s) + Buttons(s, e, current), Tail(e, total));
      PagesAppend(Lead(s), Buttons(s, e, current));
      ButtonsPages(s, e, current);
      LeadPages(s);
      TailPages(e, total);
    }
  }

  lemma {:induction false} IncreasingConcat(a: seq<nat>, b: seq<nat>)
    requires Increasing(a) && Increasing(b)
    requires a != [] && b != [] ==> a[|a| - 1] < b[0]
    ensures Increasing(a + b)
  {
    var c := a + b;
    forall i, j | 0 <= i < j < |c| ensures c[i] < c[j] {
      if i < |a| && j >= |a| {
        assert c[i] <= a[|a| - 1] && b[0] <= c[j];
      }
    }
  }

  /** The pages s..e, preceded by page 1 and followed by page `total` when the window does
      not reach them, run in increasing order from 1 to `total`. */
  lemma WindowPagesOrdered(s: nat, e: nat, total: nat)
    requires 1 <= s <= e <= total
    ensures var ps := (if s > 1 then [1] else []) + Range(s, e) + (if e < total then [total] else []);
      && |ps| > 0 && ps[0] == 1 && ps[|ps| - 1] == total
      && (forall i :: 0 <= i < |ps| ==> 1 <= ps[i] <= total)
      && Increasing(ps)
  {
    var l: seq<nat> := if s > 1 then [1] else [];
    var r := Range(s, e);
    var t: seq<nat> := if e < total then [total] else [];
    assert Increasing(r);
    IncreasingConcat(l, r);
    IncreasingConcat(l + r, t);
    var ps := l + r + t;
    assert ps[0] == 1 by {
      if s > 1 { assert ps[0] == l[0]; } else { assert ps[0] == r[0]; }
    }
    assert ps[|ps| - 1] == total by {
      if e < total { assert ps[|ps| - 1] == t[0]; } else { assert ps[|ps| - 1] == r[|r| - 1]; }
    }
    forall i | 0 <= i < |ps| ensures 1 <= ps[i] <= total {
      if i < |l| { assert ps[i] == l[i]; }
      else if i < |l| + |r| { assert ps[i] == r[i - |l|]; }
      else { assert ps[i] == t[i - |l| - |r|]; }
    }
  }

  /** The buttons list pages in increasing order, from page 1 to the last page, each
      inside 1..total. */
  lemma PagesOrdered(current: nat, total: nat)
    requires 1 <= current <= total
    ensures var ps := Pages(PageNumbers(current, total));
      && |ps| > 0 && ps[0] == 1 && ps[|ps| - 1] == total
      && (forall i :: 0 <= i < |ps| ==> 1 <= ps[i] <= total)
      && Increasing(ps)
  {
    NumbersPages(current, total);
    if total > 5 {
      WindowPagesOrdered(WindowStart(current), WindowEnd(current, total), total);
    } else {
      assert Increasing(Range(1, total));
    }
  }

  /** Every page within two of the current one has a button; with at most five pages,
      the buttons are exactly 1..total. */
  lemma PagesCoverWindow(current: nat, total: nat)
    requires 1 <= current <= total
    ensures var ps := Pages(PageNumbers(current, total));
      && (forall p :: 1 <= p <= total && current - 2 <= p <= current + 2 ==> p in ps)
      && (total <= 5 ==> ps == Range(1, total))
  {
    NumbersPages(current, total);
    if total > 5 {
      WindowCovered(current, total);
    } else {
      var ps := Pages(PageNumbers(current, total));
      forall p | 1 <= p <= total && current - 2 <= p <= current + 2 ensures p in ps {
        assert ps[p - 1] == p;
      }
    }
  }

  /** The window case of PagesCoverWindow. */
  lemma WindowCovered(current: nat, total: nat)
    requires 1 <= current <= total && total > 5
    ensures forall p :: 1 <= p <= total && current - 2 <= p <= current + 2 ==> p in Pages(PageNumbers(current, total))
  {
    NumbersPages(current, total);
    var s, e := WindowStart(current), WindowEnd(current, total);
    var l: seq<nat> := if s > 1 then [1] else [];
    var t: seq<nat> := if e < total then [total] else [];
    var ps := Pages(PageNumbers(current, total));
    assert ps == l + Range(s, e) + t;
    forall p | 1 <= p <= total && current - 2 <= p <= current + 2 ensures p in ps {
      assert s <= p <= e;
      assert Range(s, e)[p - s] == p;
      assert ps[|l| + (p - s)] == p;
    }
  }

  /** Dots stand exactly for the pages the buttons skip: the lead has dots exactly when
      pages 2..start-1 are skipped, the tail exactly when pages end+1..total-1 are. */
  lemma DotsMarkGaps(current: nat, total: nat)
    requires total > 5
    ensures (Dots in Lead(WindowStart(current))) <==> WindowStart(current) > 2
    ensures (Dots in Tail(WindowEnd(current, total), total)) <==> WindowEnd(current, total) + 1 < total
  {
  }

  /** Exactly one numbered button is active, and it is the current page. */
  lemma OneActivePage(current: nat, total: nat)
    requires 1 <= current <= total
    ensures ActivePages(PageControls(current, total)) == [current]
  {
    var s, e := WindowStart(current), WindowEnd(current, total);
    ActivePagesAppend([Previous(current == 1)] + PageNumbers(current, total), [Next(current == total)]);
    ActivePagesAppend([Previous(current == 1)], PageNumbers(current, total));
    ButtonsPages(1, total, current);
    if total > 5 {
      ActivePagesAppend(Lead(s) + Buttons(s, e, current), Tail(e, total));
      ActivePagesAppend(Lead(s), Buttons(s, e, current));
      ButtonsPages(s, e, current);
      LeadPages(s);
      TailPages(e, total);
    }
  }

  /** Previous is first and disabled exactly on page 1; Next is last and disabled exactly
      on the last page. */
  lemma PreviousNextDisabled(current: nat, total: nat)
    ensures var cs := PageControls(current, total);
      && |cs| >= 2
      && cs[0].Previous? && (cs[0].disabled <==> current == 1)
      && cs[|cs| - 1].Next? && (cs[|cs| - 1].disabled <==> current == total)
  {
  }

  /** One more button at the end of a run of buttons. */
  lemma ButtonsSnoc(lo: nat, hi: nat, current: nat)
    requires lo <= hi + 1
    ensures Buttons(lo, hi + 1, current) == Buttons(lo, hi, current) + [PageButton(hi + 1, hi + 1 == current)]
  {
    var a, b := Buttons(lo, hi + 1, current), Buttons(lo, hi, current) + [PageButton(hi + 1, hi + 1 == current)];
    assert |a| == |b|;
    forall k | 0 <= k < |a| ensures a[k] == b[k] {
      if k < hi + 1 - lo { assert b[k] == Buttons(lo, hi, current)[k]; }
    }
  }

  /** The loop of updatePagination that appends the numbered buttons lo..hi. */
  method RenderButtons(lo: nat, hi: nat, current: nat) returns (bs: seq<Control>)
    requires lo >= 1
    ensures bs == Buttons(lo, hi, current)
  {
    bs := [];
    var i := lo;
    while i <= hi
      invariant lo <= i && (i <= hi + 1 || i == lo)
      invariant bs == Buttons(lo, i - 1, current)
    {
      ButtonsSnoc(lo, i - 1, current);
      bs := bs + [PageButton(i, i == current)];
      i := i + 1;
    }
  }

  /** updatePagination's loops: append Previous, then the numbered buttons (and page 1,
      the last page and dots around a window when there are more than five pages), then Next. */
  method RenderControls(current: nat, total: nat) returns (cs: seq<Control>)
    ensures cs == PageControls(current, total)
  {
    var numbers: seq<Control>;
    if total <= 5 {
      numbers := RenderButtons(1, total, current);
    } else {
      var startPage := WindowStart(current);
      var endPage := WindowEnd(current, total);
      var lead: seq<Control> := [];
      if startPage > 1 {
        lead := lead + [PageButton(1, false)];
        if startPage > 2 { lead := lead + [Dots]; }
      }
      var window := RenderButtons(startPage, endPage, current);
      var tail: seq<Control> := [];
      if endPage < total {
        if endPage < total - 1 { tail := tail + [Dots]; }
        tail := tail + [PageButton(total, false)];
      }
      assert lead == Lead(startPage) && tail == Tail(endPage, total);
      numbers := lead + window + tail;
    }
    assert numbers == PageNumbers(current, total);
    cs := [Previous(current == 1)] + numbers + [Next(current == total)];
  }
}
