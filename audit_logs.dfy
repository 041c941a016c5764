/** The pagination of the audit-log page, static/js/audit_logs.js: the "Showing a-b of n"
    line, the page items `renderPagination` builds, and the page bookkeeping of
    `loadLogs`. */
module AuditLogs {
  import opened Base

  /** `perPage`. */
  const PerPage: int := 8

  /** The first and last entry numbers of the "Showing" line. */
  datatype Showing = Showing(first: int, last: int, total: int)

  function ShowingRange(current: int, totalItems: int): (s: Showing)
    ensures s.first == (current - 1) * PerPage + 1
    ensures s.last <= current * PerPage && s.last <= totalItems
    ensures s.last == current * PerPage || s.last == totalItems
    ensures s.total == totalItems
  {
    Showing((current - 1) * PerPage + 1, if current * PerPage < totalItems then current * PerPage else totalItems, totalItems)
  }

  /** On a page that holds entries, the line names between one and eight entries, all of
      them real; a full page names exactly eight. */
  lemma ShowingWithinTotal(current: int, totalItems: int)
    requires current >= 1 && (current - 1) * PerPage < totalItems
    ensures var s := ShowingRange(current, totalItems);
      && 1 <= s.first <= s.last <= totalItems
      && 1 <= s.last - s.first + 1 <= PerPage
      && (current * PerPage <= totalItems ==> s.last - s.first + 1 == PerPage)
  {
  }

  /** With no entries at all the line reads "Showing 1-0 of 0". */
  lemma ShowingEmpty()
    ensures ShowingRange(1, 0) == Showing(1, 0, 0)
  {
  }

  /** One `<li>` of the pagination; `target` is the page a click loads, if any. */
  datatype PageItem =
    | Previous(disabled: bool, target: Option<int>)
    | PageLink(number: int, active: bool)
    | Next(disabled: bool, target: Option<int>)

  /** The page a click on the item loads. */
  function Target(item: PageItem): Option<int> {
    match item
    case Previous(_, t) => t
    case PageLink(n, _) => Some(n)
    case Next(_, t) => t
  }

  /** The numbered items `lo`..`hi`, the one equal to `current` marked active. */
  function PageLinks(lo: int, hi: int, current: int): (r: seq<PageItem>)
    decreases hi - lo
    ensures |r| == if hi < lo then 0 else hi - lo + 1
    ensures forall k :: 0 <= k < |r| ==> r[k] == PageLink(lo + k, lo + k == current)
  {
    if hi < lo then [] else [PageLink(lo, lo == current)] + PageLinks(lo + 1, hi, current)
  }

  /** The items of a container rendered for page `current` of `totalPages`: Previous, the
      numbers 1..totalPages, Next. */
  function PaginationItems(current: int, totalPages: int): (r: seq<PageItem>)
    ensures |r| == (if totalPages < 0 then 0 else totalPages) + 2
    ensures r[0] == Previous(current == 1, if current > 1 then Some(current - 1) else None)
    ensures r[|r| - 1] == Next(current == totalPages, if current < totalPages then Some(current + 1) else None)
    ensures forall k :: 1 <= k <= totalPages ==> r[k] == PageLink(k, k == current)
  {
    [Previous(current == 1, if current > 1 then Some(current - 1) else None)]
    + PageLinks(1, totalPages, current)
    + [Next(current == totalPages, if current < totalPages then Some(current + 1) else None)]
  }

  /** Exactly one numbered item is active when `current` is a page number, and none
      otherwise. */
  lemma OneActivePage(current: int, totalPages: int)
    ensures var r := PaginationItems(current, totalPages);
      forall k :: 0 <= k < |r| && r[k].PageLink? ==> (r[k].active <==> r[k].number == current) && 1 <= r[k].number <= totalPages
  {
    var r := PaginationItems(current, totalPages);
    forall k | 0 <= k < |r| && r[k].PageLink?
      ensures (r[k].active <==> r[k].number == current) && 1 <= r[k].number <= totalPages
    {
      if totalPages >= 1 {
        assert k != 0 && k != |r| - 1;
        assert r[k] == PageLink(k, k == current);
      }
    }
  }

  /** From a page in range, every click loads a page in range: the previous and next items
      do nothing at the ends. */
  lemma ClicksStayInRange(current: int, totalPages: int)
    requires 1 <= current <= totalPages
    ensures var r := PaginationItems(current, totalPages);
      forall k :: 0 <= k < |r| && Target(r[k]).Some? ==> 1 <= Target(r[k]).value <= totalPages
  {
    var r := PaginationItems(current, totalPages);
    forall k | 0 <= k < |r| && Target(r[k]).Some?
      ensures 1 <= Target(r[k]).value <= totalPages
    {
      if 1 <= k <= totalPages {
        assert r[k] == PageLink(k, k == current);
      }
    }
  }

  /** The page's state: the global `currentPage` and the items in the pagination container. */
  class AuditLogsPage {
    var currentPage: int
    var items: seq<PageItem>
    var showing: Showing

    /** `let currentPage = 1` and an empty container. The "Showing" line has no value until
        the first render, so its initial contents are left unspecified. */
    constructor ()
      ensures currentPage == 1 && items == []
    {
      currentPage := 1;
      items := [];
      showing := Showing(1, 0, 0);
    }

    /** `loadLogs(page)`: `None` is a call without an argument. The fetch it starts is not
        modelled. */
    method LoadLogs(page: Option<int>)
      modifies this
      ensures currentPage == page.GetOr(1)
      ensures items == old(items) && showing == old(showing)
    {
      currentPage := page.GetOr(1);
    }

    /** `renderPagination(current, totalPages, totalItems)`: the container is cleared and
        refilled item by item. */
    method RenderPagination(current: int, totalPages: int, totalItems: int)
      modifies this
      ensures items == PaginationItems(current, totalPages)
      ensures showing == ShowingRange(current, totalItems)
      ensures currentPage == old(currentPage)
    {
      showing := ShowingRange(current, totalItems);
      items := [];
      items := items + [Previous(current == 1, if current > 1 then Some(current - 1) else None)];
      var i := 1;
      while i <= totalPages
        invariant 1 <= i && (totalPages >= 0 ==> i <= totalPages + 1)
        invariant totalPages < 0 ==> i == 1
        invariant items == [Previous(current == 1, if current > 1 then Some(current - 1) else None)]
                           + PageLinks(1, i - 1, current)
        invariant currentPage == old(currentPage) && showing == ShowingRange(current, totalItems)
      {
        assert PageLinks(1, i, current) == PageLinks(1, i - 1, current) + [PageLink(i, i == current)];
        items := items + [PageLink(i, i == current)];
        i := i + 1;
      }
      assert PageLinks(1, i - 1, current) == PageLinks(1, totalPages, current);
      items := items + [Next(current == totalPages, if current < totalPages then Some(current + 1) else None)];
    }

    /** A click on an item: it loads the item's target page, or does nothing. */
    method Click(item: PageItem)
      modifies this
      ensures currentPage == if Target(item).Some? then Target(item).value else old(currentPage)
      ensures items == old(items) && showing == old(showing)
    {
      var t := Target(item);
      if t.Some? {
        LoadLogs(t);
      }
    }
  }
}
