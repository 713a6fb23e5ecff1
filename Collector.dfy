/**
 * The recency-filtered collector loop (test_copy.py:161-194; the same loop is
 * repeated for the second search at test_copy.py:220-253).
 *
 * The listing is given as the pages the browsing session shows one after
 * another: page `k + 1` is what a working next-page trigger on page `k` leads
 * to. Past the end of the listing the session shows an empty table.
 */
module Collector {

  import opened Wrappers
  import opened Dates
  import opened Listing
  import opened Seqs

  /** A kept posting, as written to the output: date, title, link. */
  datatype Entry = Entry(shownDate: string, title: string, link: string)

  /** A page of results: its URL, the rows of its table, and which next-page triggers work on it. */
  datatype Page = Page(url: string, table: seq<TableRow>, workingTriggers: set<string>)

  /** The safety bound on the number of pages read (test_copy.py:162). */
  const MaxPages: nat := 50

  /** The lookback window in days (test_copy.py:19). */
  const LookbackDays: int := 30

  /** The next-page triggers, tried in this order (test_copy.py:185). */
  const NextTriggers: seq<string> := ["text=다음", "a:has-text('>')", "a:has-text('Next')"]

  // ---------------------------------------------------------------------
  // Which rows are kept
  // ---------------------------------------------------------------------

  /** The filter of test_copy.py:173: a keyword in the title and a date inside the window. */
  predicate IsKept(r: ListRow, now: int, days: int)
  {
    HasKeyword(r.title) && WithinLookback(r.date, now, days)
  }

  /** `{k: r[k] for k in ("날짜","제목","링크")}`: the record without its parsed date. */
  function AsEntry(r: ListRow): Entry
  {
    Entry(r.shownDate, r.title, r.link)
  }

  /** What the filter loop over one page's records appends, in order. */
  function Selected(rows: seq<ListRow>, now: int, days: int): seq<Entry>
  {
    KeepMap(rows, (r: ListRow) => IsKept(r, now, days), AsEntry)
  }

  /** An entry is selected from a page exactly when some record on it passes the filter and shows as that entry. */
  lemma SelectedExactly(rows: seq<ListRow>, now: int, days: int, e: Entry)
    ensures e in Selected(rows, now, days) <==>
      exists i :: 0 <= i < |rows| && IsKept(rows[i], now, days) && e == AsEntry(rows[i])
  {
    KeepMapMembers(rows, (r: ListRow) => IsKept(r, now, days), AsEntry, e);
  }

  // ---------------------------------------------------------------------
  // Whether to read the next page
  // ---------------------------------------------------------------------

  /** `[r.get("_dt") for r in rows if r.get("_dt")]`: the parsed dates of a page, in order. */
  function ParsedDates(rows: seq<ListRow>): seq<ValidDate>
  {
    if rows == [] then []
    else
      var n := |rows| - 1;
      ParsedDates(rows[..n]) + (if rows[n].date.Some? then [rows[n].date.value] else [])
  }

  /** Every parsed date of a record is among the page's dates. */
  lemma {:induction false} ParsedDatesComplete(rows: seq<ListRow>)
    ensures forall i :: 0 <= i < |rows| && rows[i].date.Some? ==> rows[i].date.value in ParsedDates(rows)
  {
    if rows != [] {
      var n := |rows| - 1;
      ParsedDatesComplete(rows[..n]);
      forall i | 0 <= i < n && rows[i].date.Some?
        ensures rows[i].date.value in ParsedDates(rows)
      {
        assert rows[..n][i] == rows[i];
      }
    }
  }

  /** Every date of the page is the parsed date of one of its records. */
  lemma {:induction false} ParsedDatesSound(rows: seq<ListRow>)
    ensures forall k :: 0 <= k < |ParsedDates(rows)| ==>
              exists i :: 0 <= i < |rows| && rows[i].date == Some(ParsedDates(rows)[k])
  {
    if rows != [] {
      var n := |rows| - 1;
      var front := ParsedDates(rows[..n]);
      var ds := ParsedDates(rows);
      ParsedDatesSound(rows[..n]);
      forall k | 0 <= k < |ds|
        ensures exists i :: 0 <= i < |rows| && rows[i].date == Some(ds[k])
      {
        assert ds == front + (if rows[n].date.Some? then [rows[n].date.value] else []);
        if k < |front| {
          assert ds[k] == front[k];
          var i :| 0 <= i < n && rows[..n][i].date == Some(front[k]);
          assert rows[i].date == Some(ds[k]);
        } else {
          assert rows[n].date == Some(ds[k]);
        }
      }
    } else {
      assert ParsedDates(rows) == [];
    }
  }

  /** A page none of whose records has a parsed date has no dates. */
  lemma {:induction false} ParsedDatesNone(rows: seq<ListRow>)
    requires forall i :: 0 <= i < |rows| ==> rows[i].date.None?
    ensures ParsedDates(rows) == []
  {
    if rows != [] {
      var n := |rows| - 1;
      assert forall i :: 0 <= i < n ==> rows[..n][i] == rows[i];
      ParsedDatesNone(rows[..n]);
    }
  }

  /** `need_next`: the page has a parsed date and the oldest of them is inside the window. */
  predicate NeedNext(rows: seq<ListRow>, now: int, days: int)
  {
    var ds := ParsedDates(rows);
    |ds| > 0 && WithinLookback(Some(Oldest(ds)), now, days)
  }

  /**
   * Looking at the oldest date is the same as looking at all of them: the
   * collector moves on exactly when the page has a parsed date and every
   * parsed date on it is inside the window.
   */
  lemma NeedNextIffAllRecent(rows: seq<ListRow>, now: int, days: int)
    ensures NeedNext(rows, now, days) <==>
      (exists i :: 0 <= i < |rows| && rows[i].date.Some?)
      && (forall i :: 0 <= i < |rows| && rows[i].date.Some? ==> WithinLookback(rows[i].date, now, days))
  {
    var ds := ParsedDates(rows);
    ParsedDatesComplete(rows);
    ParsedDatesSound(rows);
    if NeedNext(rows, now, days) {
      var o := Oldest(ds);
      OldestIsMinimum(ds);
      forall i | 0 <= i < |rows| && rows[i].date.Some?
        ensures WithinLookback(rows[i].date, now, days)
      {
        var d := rows[i].date.value;
        var k :| 0 <= k < |ds| && ds[k] == d;
        WithinLookbackMonotone(o, d, now, days);
      }
    } else if |ds| > 0 {
      var o := Oldest(ds);
      OldestIsMinimum(ds);
      var k :| 0 <= k < |ds| && ds[k] == o;
      var i :| 0 <= i < |rows| && rows[i].date == Some(o);
      assert !WithinLookback(rows[i].date, now, days);
    }
  }

  /** Some trigger of the list works on the page. */
  predicate Advances(working: set<string>)
  {
    exists i :: 0 <= i < |NextTriggers| && NextTriggers[i] in working
  }

  /**
   * The fallback loop over the next-page triggers (test_copy.py:184-192):
   * the first trigger that works is clicked; `moved` tells whether any did.
   */
  method ClickNext(working: set<string>) returns (moved: bool)
    ensures moved == Advances(working)
  {
    moved := false;
    for i := 0 to |NextTriggers|
      invariant forall j :: 0 <= j < i ==> NextTriggers[j] !in working
    {
      if NextTriggers[i] in working {
        moved := true;
        break;
      }
    }
  }

  // ---------------------------------------------------------------------
  // Pages as the loop sees them
  // ---------------------------------------------------------------------

  /** What the loop learns from a page: the records `collect_list_rows` reads, and whether a next-page trigger works. */
  datatype PageView = PageView(rows: seq<ListRow>, canAdvance: bool)

  function ViewOf(p: Page): PageView
  {
    PageView(ExtractedRows(p.url, p.table), Advances(p.workingTriggers))
  }

  /** The views of a listing's pages, in order. */
  function Views(listing: seq<Page>): (vs: seq<PageView>)
    ensures |vs| == |listing|
  {
    if listing == [] then [] else [ViewOf(listing[0])] + Views(listing[1..])
  }

  /** Page `k`; past the end, an empty page on which no trigger works. */
  function ViewAt(views: seq<PageView>, k: nat): PageView
  {
    if k < |views| then views[k] else PageView([], false)
  }

  // ---------------------------------------------------------------------
  // The page loop
  // ---------------------------------------------------------------------

  /** What one pass of the loop body does with a page: the entries it keeps, and whether the loop goes on. */
  datatype Step = Step(selected: seq<Entry>, goOn: bool)

  function StepOf(v: PageView, now: int, days: int): Step
  {
    Step(Selected(v.rows, now, days), v.rows != [] && NeedNext(v.rows, now, days) && v.canAdvance)
  }

  /** The steps for a listing's pages, in order. */
  function Steps(views: seq<PageView>, now: int, days: int): (ss: seq<Step>)
    ensures |ss| == |views|
  {
    if views == [] then [] else [StepOf(views[0], now, days)] + Steps(views[1..], now, days)
  }

  /** Step `k`; past the end, the step of an empty page. */
  function StepAt(steps: seq<Step>, k: nat): Step
  {
    if k < |steps| then steps[k] else Step([], false)
  }

  lemma {:induction false} StepsAt(views: seq<PageView>, now: int, days: int, k: nat)
    ensures StepAt(Steps(views, now, days), k) == StepOf(ViewAt(views, k), now, days)
  {
    if k >= |views| {
      assert Selected([], now, days) == [];
    } else if k > 0 {
      StepsAt(views[1..], now, days, k - 1);
    }
  }

  /** What the loop yields: the kept entries and the number of pages read. */
  datatype Outcome = Outcome(kept: seq<Entry>, visited: nat)

  /** `outcome` as seen after `visited` pages have already produced `kept`. */
  function After(kept: seq<Entry>, visited: nat, outcome: Outcome): Outcome
  {
    Outcome(kept + outcome.kept, visited + outcome.visited)
  }

  /** The loop run from page `k` with `budget` iterations left. */
  function Crawl(steps: seq<Step>, k: nat, budget: nat): Outcome
    decreases budget
  {
    if budget == 0 then Outcome([], 0)
    else
      var s := StepAt(steps, k);
      if !s.goOn then Outcome(s.selected, 1)
      else After(s.selected, 1, Crawl(steps, k + 1, budget - 1))
  }

  /** The filter loop over one page's records (test_copy.py:170-174). */
  method FilterPage(rows: seq<ListRow>, now: int) returns (sel: seq<Entry>)
    ensures sel == Selected(rows, now, LookbackDays)
  {
    sel := [];
    for i := 0 to |rows|
      invariant sel == Selected(rows[..i], now, LookbackDays)
    {
      assert rows[..i + 1][..i] == rows[..i];
      var r := rows[i];
      if HasKeyword(r.title) && WithinLookback(r.date, now, LookbackDays) {
        sel := sel + [AsEntry(r)];
      }
    }
    assert rows[..|rows|] == rows;
  }

  /**
   * The oldest-date test of test_copy.py:176-181: the loop moves on exactly
   * when the page has a parsed date and every parsed date on it is inside
   * the window.
   */
  method OldestStillRecent(rows: seq<ListRow>, now: int) returns (needNext: bool)
    ensures needNext == NeedNext(rows, now, LookbackDays)
    ensures needNext <==>
      (exists i :: 0 <= i < |rows| && rows[i].date.Some?)
      && (forall i :: 0 <= i < |rows| && rows[i].date.Some? ==> WithinLookback(rows[i].date, now, LookbackDays))
  {
    var dates := ParsedDates(rows);
    needNext := false;
    if dates != [] {
      var oldest := Oldest(dates);
      needNext := WithinLookback(Some(oldest), now, LookbackDays);
    }
    NeedNextIffAllRecent(rows, now, LookbackDays);
  }

  /** Page `k` of the listing; past the end, the empty page. */
  function PageAt(listing: seq<Page>, k: nat): Page
  {
    if k < |listing| then listing[k] else Page("", [], {})
  }

  lemma {:induction false} ViewsAt(listing: seq<Page>, k: nat)
    ensures ViewAt(Views(listing), k) == ViewOf(PageAt(listing, k))
  {
    if 0 < k < |listing| {
      ViewsAt(listing[1..], k - 1);
    }
  }

  /** `collect_list_rows` on the page the session shows after `k` next-page clicks. */
  method ReadListRows(listing: seq<Page>, k: nat) returns (rows: seq<ListRow>)
    ensures rows == ViewAt(Views(listing), k).rows
  {
    var page := PageAt(listing, k);
    rows := CollectListRows(page.url, page.table);
    ViewsAt(listing, k);
  }

  /**
   * One pass of the loop body on the page the session shows after `k`
   * next-page clicks (test_copy.py:165-194): read the records, keep what the
   * filter selects, and try to move on when the oldest date is still inside
   * the window. `goOn` tells whether the loop continues.
   */
  method VisitPage(listing: seq<Page>, k: nat, now: int) returns (sel: seq<Entry>, goOn: bool)
    ensures Step(sel, goOn) == StepAt(Steps(Views(listing), now, LookbackDays), k)
  {
    StepsAt(Views(listing), now, LookbackDays, k);
    var rows := ReadListRows(listing, k);
    if rows == [] {
      return [], false;
    }
    sel := FilterPage(rows, now);
    var needNext := OldestStillRecent(rows, now);
    if !needNext {
      return sel, false;
    }
    var moved := ClickNext(PageAt(listing, k).workingTriggers);
    assert moved == ViewAt(Views(listing), k).canAdvance by {
      ViewsAt(listing, k);
    }
    goOn := moved;
  }

  /**
   * The collector loop with `now` standing for `datetime.now()` and the
   * window of `LookbackDays` days. Returns the kept entries and how many
   * pages were read.
   */
  method CollectListing(listing: seq<Page>, now: int) returns (kept: seq<Entry>, visited: nat)
    ensures Outcome(kept, visited) == Crawl(Steps(Views(listing), now, LookbackDays), 0, MaxPages)
  {
    ghost var steps := Steps(Views(listing), now, LookbackDays);
    ghost var whole := Crawl(steps, 0, MaxPages);
    kept := [];
    visited := 0;
    var goOn := true;
    while goOn && visited < MaxPages
      invariant visited <= MaxPages
      invariant whole == After(kept, visited, if goOn then Crawl(steps, visited, MaxPages - visited) else Outcome([], 0))
    {
      var sel;
      CrawlOnce(steps, visited, MaxPages - visited, kept);
      sel, goOn := VisitPage(listing, visited, now);
      kept := kept + sel;
      visited := visited + 1;
    }
    assert kept + [] == kept;
  }

  /** One pass of the loop: keep the page's entries, then go on only if the page lets the loop go on. */
  lemma CrawlOnce(steps: seq<Step>, k: nat, budget: nat, kept: seq<Entry>)
    requires budget > 0
    ensures After(kept, k, Crawl(steps, k, budget)) ==
      After(kept + StepAt(steps, k).selected, k + 1,
            if StepAt(steps, k).goOn then Crawl(steps, k + 1, budget - 1) else Outcome([], 0))
  {
    var s := StepAt(steps, k);
    if s.goOn {
      AfterAfter(kept, k, s.selected, 1, Crawl(steps, k + 1, budget - 1));
    } else {
      assert s.selected + [] == s.selected;
      assert kept + (s.selected + []) == (kept + s.selected) + [];
    }
  }

  /** Accumulating in two steps is accumulating the concatenation. */
  lemma AfterAfter(a: seq<Entry>, n: nat, b: seq<Entry>, m: nat, outcome: Outcome)
    ensures After(a, n, After(b, m, outcome)) == After(a + b, n + m, outcome)
  {
    assert a + (b + outcome.kept) == (a + b) + outcome.kept;
  }

  // ---------------------------------------------------------------------
  // What the loop promises, step by step
  // ---------------------------------------------------------------------

  /** The entries selected from pages `k` to `k + n - 1`, page after page. */
  function KeptOver(steps: seq<Step>, k: nat, n: nat): seq<Entry>
    decreases n
  {
    if n == 0 then [] else StepAt(steps, k).selected + KeptOver(steps, k + 1, n - 1)
  }

  /**
   * A run with budget reads between one and `budget` pages; it goes on from
   * every page but the last one read, and it stops at the last one because
   * that page does not let it go on or the budget is spent.
   */
  lemma {:induction false} CrawlVisits(steps: seq<Step>, k: nat, budget: nat)
    requires budget > 0
    ensures var n := Crawl(steps, k, budget).visited;
      && 1 <= n <= budget
      && (forall p :: k <= p < k + n - 1 ==> StepAt(steps, p).goOn)
      && (n == budget || !StepAt(steps, k + n - 1).goOn)
    decreases budget
  {
    if budget > 1 && StepAt(steps, k).goOn {
      CrawlVisits(steps, k + 1, budget - 1);
    }
  }

  /** What a run keeps is what each page it reads selects, in page order. */
  lemma {:induction false} CrawlKept(steps: seq<Step>, k: nat, budget: nat)
    ensures Crawl(steps, k, budget).kept == KeptOver(steps, k, Crawl(steps, k, budget).visited)
    decreases budget
  {
    if budget > 0 && StepAt(steps, k).goOn {
      CrawlKept(steps, k + 1, budget - 1);
    }
  }

  /** An entry is in `KeptOver` exactly when one of those pages selects it. */
  lemma {:induction false} KeptOverMembers(steps: seq<Step>, k: nat, n: nat, e: Entry)
    ensures e in KeptOver(steps, k, n) <==> exists p :: k <= p < k + n && e in StepAt(steps, p).selected
    decreases n
  {
    if n > 0 {
      KeptOverMembers(steps, k + 1, n - 1, e);
    }
  }

  // ---------------------------------------------------------------------
  // What the loop promises about the listing
  // ---------------------------------------------------------------------

  /** After reading page `k`, the loop goes on to page `k + 1`. */
  predicate Continues(views: seq<PageView>, k: nat, now: int, days: int)
  {
    StepOf(ViewAt(views, k), now, days).goOn
  }

  /**
   * The loop reads between one and `MaxPages` pages; every page but the last
   * one read leads on to the next, and it stops at the last one because that
   * page is empty, its oldest date is not inside the window (or it has none),
   * no next-page trigger works, or it is the last the budget allows.
   */
  lemma PagesVisited(views: seq<PageView>, now: int, days: int)
    ensures var n := Crawl(Steps(views, now, days), 0, MaxPages).visited;
      && 1 <= n <= MaxPages
      && (forall p :: 0 <= p < n - 1 ==> Continues(views, p, now, days))
      && (n == MaxPages || !Continues(views, n - 1, now, days))
  {
    var steps := Steps(views, now, days);
    var n := Crawl(steps, 0, MaxPages).visited;
    CrawlVisits(steps, 0, MaxPages);
    forall p: nat | p < n
      ensures StepAt(steps, p).goOn == Continues(views, p, now, days)
    {
      StepsAt(views, now, days, p);
    }
  }

  /**
   * An entry is kept exactly when a record on one of the pages read passes
   * the filter and shows as that entry.
   */
  lemma KeptExactly(views: seq<PageView>, now: int, days: int, e: Entry)
    ensures var r := Crawl(Steps(views, now, days), 0, MaxPages);
      e in r.kept <==>
        exists p, i :: 0 <= p < r.visited && 0 <= i < |ViewAt(views, p).rows|
          && IsKept(ViewAt(views, p).rows[i], now, days) && e == AsEntry(ViewAt(views, p).rows[i])
  {
    var steps := Steps(views, now, days);
    var r := Crawl(steps, 0, MaxPages);
    CrawlKept(steps, 0, MaxPages);
    KeptOverMembers(steps, 0, r.visited, e);
    forall p: nat | p < r.visited
      ensures e in StepAt(steps, p).selected <==> (exists i :: 0 <= i < |ViewAt(views, p).rows|
                                                    && IsKept(ViewAt(views, p).rows[i], now, days) && e == AsEntry(ViewAt(views, p).rows[i]))
    {
      StepsAt(views, now, days, p);
      SelectedExactly(ViewAt(views, p).rows, now, days, e);
    }
  }

  /** The records of pages `k` to `k + n - 1`, page after page. */
  function RowsOver(views: seq<PageView>, k: nat, n: nat): seq<ListRow>
    decreases n
  {
    if n == 0 then [] else ViewAt(views, k).rows + RowsOver(views, k + 1, n - 1)
  }

  /** Selecting page by page is selecting once from all the records of those pages. */
  lemma {:induction false} KeptOverIsSelected(views: seq<PageView>, now: int, days: int, k: nat, n: nat)
    ensures KeptOver(Steps(views, now, days), k, n) == Selected(RowsOver(views, k, n), now, days)
    decreases n
  {
    if n == 0 {
      assert Selected([], now, days) == [];
    } else {
      KeptOverIsSelected(views, now, days, k + 1, n - 1);
      StepsAt(views, now, days, k);
      KeepMapAppend(ViewAt(views, k).rows, RowsOver(views, k + 1, n - 1), (r: ListRow) => IsKept(r, now, days), AsEntry);
    }
  }

  /**
   * The kept list is the filter applied once to the records of all pages
   * read, in page order and, within a page, in table order.
   */
  lemma KeptInReadingOrder(views: seq<PageView>, now: int, days: int)
    ensures var r := Crawl(Steps(views, now, days), 0, MaxPages);
      r.kept == Selected(RowsOver(views, 0, r.visited), now, days)
  {
    var steps := Steps(views, now, days);
    CrawlKept(steps, 0, MaxPages);
    KeptOverIsSelected(views, now, days, 0, Crawl(steps, 0, MaxPages).visited);
  }

  /** Every record shown on the page agrees with its parsed date. */
  ghost predicate DatesShown(v: PageView)
  {
    forall r :: r in v.rows ==> ParseDate(r.shownDate) == r.date
  }

  lemma ViewsShowDates(listing: seq<Page>, k: nat)
    ensures DatesShown(ViewAt(Views(listing), k))
  {
    if k < |listing| {
      ViewsAt(listing, k);
      forall r | r in ViewAt(Views(listing), k).rows
        ensures ParseDate(r.shownDate) == r.date
      {
        ExtractedDatesAgree(listing[k].url, listing[k].table, r);
      }
    }
  }

  /**
   * Everything the collector keeps comes from a page it read, has a keyword
   * in its title, and shows a date that parses to a date inside the window;
   * so a record without a keyword or without a parseable date is never kept.
   */
  lemma KeptEntriesQualify(listing: seq<Page>, now: int, e: Entry)
    requires e in Crawl(Steps(Views(listing), now, LookbackDays), 0, MaxPages).kept
    ensures HasKeyword(e.title)
    ensures ParseDate(e.shownDate).Some? && WithinLookback(ParseDate(e.shownDate), now, LookbackDays)
  {
    var views := Views(listing);
    var r := Crawl(Steps(views, now, LookbackDays), 0, MaxPages);
    KeptExactly(views, now, LookbackDays, e);
    var p, i :| 0 <= p < r.visited && 0 <= i < |ViewAt(views, p).rows|
      && IsKept(ViewAt(views, p).rows[i], now, LookbackDays) && e == AsEntry(ViewAt(views, p).rows[i]);
    ViewsShowDates(listing, p);
    assert ViewAt(views, p).rows[i] in ViewAt(views, p).rows;
  }

  /** Every record on a page the collector reads that passes the filter is kept. */
  lemma ReadPagesFullyKept(views: seq<PageView>, now: int, days: int, p: nat, i: nat)
    requires p < Crawl(Steps(views, now, days), 0, MaxPages).visited
    requires i < |ViewAt(views, p).rows| && IsKept(ViewAt(views, p).rows[i], now, days)
    ensures AsEntry(ViewAt(views, p).rows[i]) in Crawl(Steps(views, now, days), 0, MaxPages).kept
  {
    KeptExactly(views, now, days, AsEntry(ViewAt(views, p).rows[i]));
  }

  /** The listing is sorted newest first: no parsed date on a later page is after one on an earlier page. */
  ghost predicate NewestFirst(views: seq<PageView>)
  {
    forall p, q, a, b :: 0 <= p < q && a in ParsedDates(ViewAt(views, p).rows) && b in ParsedDates(ViewAt(views, q).rows)
      ==> !Precedes(a, b)
  }

  /**
   * When the loop stops because the oldest date on a page is outside the
   * window, and the listing is sorted newest first, no record on any later
   * page could have been kept: stopping there loses nothing.
   */
  lemma StopByDateIsSafe(views: seq<PageView>, last: nat, now: int, days: int, q: nat, i: nat)
    requires NewestFirst(views)
    requires ParsedDates(ViewAt(views, last).rows) != [] && !NeedNext(ViewAt(views, last).rows, now, days)
    requires last < q && i < |ViewAt(views, q).rows|
    ensures !IsKept(ViewAt(views, q).rows[i], now, days)
  {
    var row := ViewAt(views, q).rows[i];
    if row.date.Some? {
      var o := Oldest(ParsedDates(ViewAt(views, last).rows));
      OldestIsMinimum(ParsedDates(ViewAt(views, last).rows));
      var b := row.date.value;
      ParsedDatesComplete(ViewAt(views, q).rows);
      assert b in ParsedDates(ViewAt(views, q).rows);
      assert !Precedes(o, b);
      if WithinLookback(row.date, now, days) {
        WithinLookbackMonotone(b, o, now, days);
      }
    }
  }

  /**
   * A page whose records all lack a parseable date ends the loop and
   * contributes nothing, whatever the pages after it hold: an unparseable
   * date stops the paging as if the page were too old.
   */
  lemma UndatedPageEndsCrawl(views: seq<PageView>, k: nat, budget: nat, now: int, days: int)
    requires budget > 0
    requires forall i :: 0 <= i < |ViewAt(views, k).rows| ==> ViewAt(views, k).rows[i].date.None?
    ensures Crawl(Steps(views, now, days), k, budget) == Outcome([], 1)
  {
    var rows := ViewAt(views, k).rows;
    StepsAt(views, now, days, k);
    ParsedDatesNone(rows);
    KeepMapNone(rows, (r: ListRow) => IsKept(r, now, days), AsEntry);
  }

}
