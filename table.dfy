/** TableManager: the view state of the alumni table and the handlers that change it. */
module Table {
  import opened Form
  import opened Rows
  import opened Filters
  import opened Paging
  import opened Selection

  /** The markup rows given their node identities 0, 1, 2, ... in table order. */
  function Rekeyed(rows: seq<Record>): (rs: seq<Record>)
    ensures |rs| == |rows| && UniqueKeys(rs) && KeysBelow(rs, |rows|)
    ensures forall i :: 0 <= i < |rows| ==> rs[i] == rows[i].(key := i)
  {
    seq(|rows|, i requires 0 <= i < |rows| => rows[i].(key := i))
  }

  class TableManager {
    /** The rows of the table body, in order. */
    var records: seq<Record>
    /** selectedRows: the nodes of the selected rows. */
    var selected: set<nat>
    var currentPage: nat
    var recordsPerPage: nat
    var searchTerm: string
    var selectedDepartment: string
    var selectedYear: string
    /** The identity the next created row receives. */
    var nextKey: nat
    /** .pagination-info, .pagination-controls, the header check box and #deleteBtn. */
    var info: PageInfo
    var controls: seq<Control>
    var header: HeaderBox
    var deleteButton: DeleteButton
    /** Whether the "No results found." message is displayed. */
    var noResults: bool

    /** What every handler keeps: a positive page size, a page number from 1, distinct row
        nodes all created before `nextKey`, and a selection of nodes created before
        `nextKey`, so that a row created next is never already selected. */
    ghost predicate Valid()
      reads this`recordsPerPage, this`currentPage, this`records, this`nextKey, this`selected
    {
      && recordsPerPage > 0 && currentPage >= 1 && UniqueKeys(records) && KeysBelow(records, nextKey)
      && forall k :: k in selected ==> k < nextKey
    }

    /** getTotalPages. */
    function TotalPages(): nat
      reads this`records, this`recordsPerPage
      requires recordsPerPage > 0
    {
      TotalPagesOf(|VisibleRows(records)|, recordsPerPage)
    }

    /** The current page exists. */
    ghost predicate PageInRange()
      reads this`records, this`recordsPerPage, this`currentPage
    {
      recordsPerPage > 0 && 1 <= currentPage <= TotalPages()
    }

    /** Every selected node is still a row of the table. */
    ghost predicate SelectionInStore()
      reads this`selected, this`records
    {
      selected <= Keys(records)
    }

    /** The rows displayed are those of the current page. */
    ghost predicate PageDisplayed()
      reads this`records, this`recordsPerPage, this`currentPage
    {
      ShowsWindow(records, PageStart(currentPage, recordsPerPage), PageEnd(currentPage, recordsPerPage))
    }

    /** A current page that exists, with its rows displayed, shows at least one row when
        any row is counted, and never more than a page's worth. */
    lemma DisplayedPageFilled()
      requires PageInRange() && PageDisplayed() && VisibleRows(records) != []
      ensures 0 < |ShownRows(records)| <= recordsPerPage
    {
      PageNotEmpty(records, currentPage, recordsPerPage);
    }

    /** The table holds `rows` redrawn from page `page` the way updatePagination followed by
        showCurrentPage redraws it: the page is kept if it exists and is page 1 otherwise,
        the controls are those of that page, and the rows of that page are displayed. */
    ghost predicate Drawn(rows: seq<Record>, page: nat)
      reads this`records, this`recordsPerPage, this`currentPage, this`controls
    {
      recordsPerPage > 0 &&
      var count := |VisibleRows(rows)|;
      && currentPage == PageAfter(page, count, recordsPerPage)
      && records == Paged(rows, PageStart(currentPage, recordsPerPage), PageEnd(currentPage, recordsPerPage))
      && controls == PageControls(currentPage, TotalPagesOf(count, recordsPerPage))
    }

    /** constructor, loadSettings and init: the defaults (page 1, four rows a page, no search,
        both "All" selectors, nothing selected), the saved page size when there is one,
        then the pagination and the page pass. */
    constructor(rows: seq<Record>, savedPageSize: Option<nat>)
      requires savedPageSize.Some? ==> savedPageSize.value > 0
      ensures Valid() && PageInRange() && PageDisplayed() && SelectionInStore()
      ensures recordsPerPage == (if savedPageSize.Some? then savedPageSize.value else 4)
      ensures selected == {} && nextKey == |rows|
      ensures searchTerm == "" && selectedDepartment == AllDepartments && selectedYear == AllYears
      ensures Drawn(Rekeyed(rows), 1) && currentPage == 1
      ensures info == InfoFor(1, recordsPerPage, |VisibleRows(Rekeyed(rows))|)
    {
      records := Rekeyed(rows);
      selected := {};
      currentPage := 1;
      recordsPerPage := if savedPageSize.Some? then savedPageSize.value else 4;
      searchTerm := "";
      selectedDepartment := AllDepartments;
      selectedYear := AllYears;
      nextKey := |rows|;
      info := NoAlumni;
      controls := [];
      header := HeaderBox(false, false);
      deleteButton := DeleteButtonFor(0);
      noResults := false;
      new;
      Redraw();
    }

    /** showCurrentPage: the page pass with the current page's window. */
    method ShowCurrentPage()
      requires Valid()
      modifies this`records
      ensures Valid() && PageDisplayed()
      ensures records == Paged(old(records), PageStart(currentPage, recordsPerPage),
                               PageEnd(currentPage, recordsPerPage))
      ensures |VisibleRows(records)| == |VisibleRows(old(records))| && Keys(records) == Keys(old(records))
    {
      var startIndex := (currentPage - 1) * recordsPerPage;
      var endIndex := startIndex + recordsPerPage;
      ghost var original := records;
      records := PagePass(records, startIndex, endIndex);
      PagedShowsWindow(original, startIndex, endIndex);
      SameNodesKeep(original, records, nextKey);
    }

    /** updatePagination: recount the visible rows, send a page past the last back to page 1,
        then redraw the line and the controls. */
    method UpdatePagination()
      requires recordsPerPage > 0
      modifies this`currentPage, this`info, this`controls
      ensures currentPage == PageAfter(old(currentPage), |VisibleRows(records)|, recordsPerPage)
      ensures info == InfoFor(currentPage, recordsPerPage, |VisibleRows(records)|)
      ensures controls == PageControls(currentPage, TotalPagesOf(|VisibleRows(records)|, recordsPerPage))
    {
      var totalRows := |VisibleRows(records)|;
      var totalPages := TotalPagesOf(totalRows, recordsPerPage);
      if currentPage > totalPages {
        currentPage := 1;
      }
      info := InfoFor(currentPage, recordsPerPage, totalRows);
      controls := RenderControls(currentPage, totalPages);
    }

    /** The closing steps of init, applySettings, applyFilters and both delete handlers:
        updatePagination, then showCurrentPage. */
    method Redraw()
      requires Valid()
      modifies this`records, this`currentPage, this`info, this`controls
      ensures Valid() && PageInRange() && PageDisplayed()
      ensures Drawn(old(records), old(currentPage))
      ensures info == InfoFor(currentPage, recordsPerPage, |VisibleRows(old(records))|)
      ensures Keys(records) == Keys(old(records)) && |records| == |old(records)|
      ensures |VisibleRows(records)| == |VisibleRows(old(records))|
      ensures VisibleRows(records) != [] ==> 0 < |ShownRows(records)| <= recordsPerPage
    {
      UpdatePagination();
      ShowCurrentPage();
      if VisibleRows(records) != [] {
        DisplayedPageFilled();
      }
    }

    /** applySettings: a page size different from the current one is taken, the table goes
        back to page 1 and is redrawn; the same size changes nothing. */
    method ApplySettings(newSize: nat)
      requires Valid() && newSize > 0
      modifies this`recordsPerPage, this`currentPage, this`records, this`info, this`controls
      ensures Valid()
      ensures newSize == old(recordsPerPage) ==> unchanged(this)
      ensures newSize != old(recordsPerPage) ==>
        && recordsPerPage == newSize && currentPage == 1 && PageInRange() && PageDisplayed()
        && Drawn(old(records), 1)
        && info == InfoFor(1, newSize, |VisibleRows(old(records))|)
    {
      if newSize != recordsPerPage {
        recordsPerPage := newSize;
        currentPage := 1;
        Redraw();
      }
    }

    /** goToPage: a page from 1 to the page count becomes current and is displayed; any
        other request changes nothing. */
    method GoToPage(page: int)
      requires Valid()
      modifies this`currentPage, this`records, this`info, this`controls
      ensures Valid()
      ensures !(1 <= page <= old(TotalPages())) ==> unchanged(this)
      ensures 1 <= page <= old(TotalPages()) ==>
        && currentPage == page && PageInRange() && PageDisplayed()
        && Drawn(old(records), page)
        && info == InfoFor(page, recordsPerPage, |VisibleRows(old(records))|)
    {
      var totalPages := TotalPages();
      if 1 <= page <= totalPages {
        currentPage := page;
        ShowCurrentPage();
        UpdatePagination();
      }
    }

    /** selectAll: every displayed row is selected (or deselected), no other; the header box
        holds the state just clicked. */
    method SelectAll(checked: bool)
      requires Valid()
      modifies this`selected, this`header, this`deleteButton
      ensures Valid()
      ensures selected == if checked then old(selected) + ShownKeys(records) else old(selected) - ShownKeys(records)
      ensures header == HeaderBox(checked, false)
      ensures deleteButton == DeleteButtonFor(|selected|)
    {
      MarkShown(checked);
      header := HeaderBox(checked, false);
      UpdateDeleteButton();
    }

    /** The loop of selectAll: each displayed row's node is added to (or taken out of) the
        selection in turn. */
    method MarkShown(checked: bool)
      requires Valid()
      modifies this`selected
      ensures Valid()
      ensures selected == if checked then old(selected) + ShownKeys(records) else old(selected) - ShownKeys(records)
    {
      var rows, bound := records, nextKey;
      var i := 0;
      while i < |rows|
        invariant 0 <= i <= |rows|
        invariant forall k :: k in selected ==> k < bound
        invariant selected == if checked then old(selected) + ShownKeys(rows[..i])
                              else old(selected) - ShownKeys(rows[..i])
      {
        assert rows[..i + 1][..i] == rows[..i];
        if rows[i].shown {
          assert rows[i].key < bound;
          if checked {
            selected := selected + {rows[i].key};
          } else {
            selected := selected - {rows[i].key};
          }
        }
        i := i + 1;
      }
      assert rows[..i] == rows;
    }

    /** handleRowSelection: one row's check box toggles only that row; the header is then
        recounted over the displayed rows. The check box belongs to a row of the table. */
    method HandleRowSelection(key: nat, checked: bool)
      requires Valid() && key in Keys(records)
      modifies this`selected, this`header, this`deleteButton
      ensures Valid()
      ensures selected == if checked then old(selected) + {key} else old(selected) - {key}
      ensures header == HeaderFor(records, selected)
      ensures deleteButton == DeleteButtonFor(|selected|)
    {
      KeyBelow(records, nextKey, key);
      if checked {
        selected := selected + {key};
      } else {
        selected := selected - {key};
      }
      header := HeaderFor(records, selected);
      UpdateDeleteButton();
    }

    /** updateDeleteButton. */
    method UpdateDeleteButton()
      modifies this`deleteButton
      ensures deleteButton == DeleteButtonFor(|selected|)
    {
      deleteButton := DeleteButtonFor(|selected|);
    }

    /** clearSelections: nothing selected, the header box cleared. */
    method ClearSelections()
      requires Valid()
      modifies this`selected, this`header, this`deleteButton
      ensures Valid()
      ensures selected == {} && header == HeaderBox(false, false)
      ensures deleteButton == DeleteButtonFor(0)
    {
      selected := {};
      header := HeaderBox(false, false);
      UpdateDeleteButton();
    }

    /** `row.remove()` for every row whose node is in `gone`: the other rows stay, in order. */
    method RemoveNodes(gone: set<nat>)
      requires Valid()
      modifies this`records
      ensures Valid() && records == Without(old(records), gone)
      ensures Keys(records) == Keys(old(records)) - gone
    {
      records := RemoveRows(records, gone);
      assert Keys(records) == Keys(old(records)) - gone by { WithoutKeeps(old(records), gone); }
      assert UniqueKeys(records) && KeysBelow(records, nextKey) by {
        WithoutUnique(old(records), gone);
        WithoutBelow(old(records), gone, nextKey);
      }
    }

    /** handleDelete after the confirmation dialog: with a non-empty selection and a
        confirmation, every selected row is removed, the selection emptied, and the table
        redrawn from the current page; otherwise nothing changes. */
    method HandleDelete(confirmed: bool) returns (notice: Option<Notice>)
      requires Valid()
      modifies this`records, this`selected, this`deleteButton, this`currentPage, this`info, this`controls
      ensures Valid()
      ensures (old(selected) == {} || !confirmed) ==> notice == None && unchanged(this)
      ensures old(selected) != {} && confirmed ==>
        && notice == Some(Notice("Selected alumni records deleted successfully!", Success))
        && Drawn(Without(old(records), old(selected)), old(currentPage))
        && Keys(records) == Keys(old(records)) - old(selected)
        && selected == {} && SelectionInStore()
        && deleteButton == DeleteButtonFor(0)
        && PageInRange() && PageDisplayed()
        && info == InfoFor(currentPage, recordsPerPage, |VisibleRows(Without(old(records), old(selected)))|)
        && (VisibleRows(records) != [] ==> 0 < |ShownRows(records)| <= recordsPerPage)
    {
      notice := None;
      if |selected| == 0 {
        return;
      }
      if confirmed {
        RemoveNodes(selected);
        selected := {};
        UpdateDeleteButton();
        Redraw();
        notice := Some(Notice("Selected alumni records deleted successfully!", Success));
      }
    }

    /** handleRowDelete after the confirmation dialog: the row is removed from the table and
        from the selection, and the table redrawn from the current page; without
        confirmation nothing changes. */
    method HandleRowDelete(key: nat, confirmed: bool) returns (notice: Option<Notice>)
      requires Valid()
      modifies this`records, this`selected, this`deleteButton, this`currentPage, this`info, this`controls
      ensures Valid()
      ensures !confirmed ==> notice == None && unchanged(this)
      ensures confirmed ==>
        && notice == Some(Notice("Alumni record deleted successfully!", Success))
        && Drawn(Without(old(records), {key}), old(currentPage))
        && Keys(records) == Keys(old(records)) - {key}
        && selected == old(selected) - {key}
        && (old(SelectionInStore()) ==> SelectionInStore())
        && deleteButton == DeleteButtonFor(|selected|)
        && PageInRange() && PageDisplayed()
        && info == InfoFor(currentPage, recordsPerPage, |VisibleRows(Without(old(records), {key}))|)
        && (VisibleRows(records) != [] ==> 0 < |ShownRows(records)| <= recordsPerPage)
    {
      notice := None;
      if confirmed {
        RemoveRow(key);
        Redraw();
        notice := Some(Notice("Alumni record deleted successfully!", Success));
      }
    }

    /** The first steps of handleRowDelete: `row.remove()`, then the node leaves the
        selection and the button is recounted. */
    method RemoveRow(key: nat)
      requires Valid()
      modifies this`records, this`selected, this`deleteButton
      ensures Valid() && records == Without(old(records), {key})
      ensures Keys(records) == Keys(old(records)) - {key}
      ensures selected == old(selected) - {key}
      ensures old(SelectionInStore()) ==> SelectionInStore()
      ensures deleteButton == DeleteButtonFor(|selected|)
    {
      RemoveNodes({key});
      selected := selected - {key};
      UpdateDeleteButton();
    }

    /** The end of applyFilters, on a table drawn from `rows` at page `page`: with a filter
        active the line reports the matching count against the whole table, otherwise
        updatePagination rewrites it and keeps the page and the controls; the "No results
        found." message is displayed exactly when nothing matches. */
    method ReportMatches(active: bool, matching: nat, ghost rows: seq<Record>, ghost page: nat)
      requires Valid() && PageInRange() && PageDisplayed() && Drawn(rows, page)
      requires |VisibleRows(records)| == |VisibleRows(rows)|
      modifies this`currentPage, this`info, this`controls, this`noResults
      ensures Valid() && PageInRange() && PageDisplayed() && Drawn(rows, page)
      ensures currentPage == old(currentPage)
      ensures info == if active then FilteredCount(matching, |records|)
                      else InfoFor(currentPage, recordsPerPage, |VisibleRows(records)|)
      ensures noResults == (matching == 0)
    {
      if active {
        info := FilteredCount(matching, |records|);
      } else {
        UpdatePagination();
      }
      noResults := matching == 0;
    }

    /** The first half of applyFilters: every row's data-visible is recomputed from the
        three filters (which it does not change), then the table is redrawn from page 1. */
    method FilterAndRedraw() returns (visibleCount: nat)
      requires Valid()
      modifies this`records, this`currentPage, this`info, this`controls
      ensures Valid() && PageInRange() && PageDisplayed() && currentPage == 1
      ensures Drawn(Refiltered(old(records), old(searchTerm), old(selectedDepartment), old(selectedYear)), 1)
      ensures Keys(records) == Keys(old(records)) && |records| == |old(records)|
      ensures visibleCount == |VisibleRows(records)|
      ensures visibleCount == |VisibleRows(Refiltered(old(records), old(searchTerm), old(selectedDepartment),
                                                       old(selectedYear)))|
      ensures info == InfoFor(1, recordsPerPage, visibleCount)
    {
      var term, department, year := searchTerm, selectedDepartment, selectedYear;
      records, visibleCount := FilterPass(records, term, department, year);
      assert UniqueKeys(records) && KeysBelow(records, nextKey) && Keys(records) == Keys(old(records)) by {
        RefilteredNodes(old(records), term, department, year);
        SameNodesKeep(old(records), records, nextKey);
      }
      currentPage := 1;
      Redraw();
    }

    /** applyFilters: the filter pass and the redraw from page 1; with a filter active the
        line then reports the matching count against the whole table, and the "No results
        found." message is displayed exactly when nothing matches. */
    method ApplyFilters()
      requires Valid()
      modifies this`records, this`currentPage, this`info, this`controls, this`noResults
      ensures Valid() && PageInRange() && PageDisplayed()
      ensures Drawn(Refiltered(old(records), old(searchTerm), old(selectedDepartment), old(selectedYear)), 1)
      ensures currentPage == 1 && Keys(records) == Keys(old(records))
      ensures var count := |VisibleRows(Refiltered(old(records), old(searchTerm), old(selectedDepartment),
                                                   old(selectedYear)))|;
        && info == (if FiltersActive(old(searchTerm), old(selectedDepartment), old(selectedYear))
                    then FilteredCount(count, |old(records)|)
                    else InfoFor(1, recordsPerPage, count))
        && noResults == (count == 0)
    {
      var active := FiltersActive(searchTerm, selectedDepartment, selectedYear);
      var visibleCount := FilterAndRedraw();
      ReportMatches(active, visibleCount,
                    Refiltered(old(records), old(searchTerm), old(selectedDepartment), old(selectedYear)), 1);
    }

    /** The search box's input handler and handleSearch: take the query, refilter. */
    method HandleSearch(query: string)
      requires Valid()
      modifies this`searchTerm, this`records, this`currentPage, this`info, this`controls, this`noResults
      ensures Valid() && PageInRange() && PageDisplayed()
      ensures searchTerm == query && currentPage == 1
      ensures Drawn(Refiltered(old(records), query, selectedDepartment, selectedYear), 1)
      ensures var count := |VisibleRows(Refiltered(old(records), query, selectedDepartment, selectedYear))|;
        && info == (if FiltersActive(query, selectedDepartment, selectedYear)
                    then FilteredCount(count, |old(records)|)
                    else InfoFor(1, recordsPerPage, count))
        && noResults == (count == 0)
    {
      searchTerm := query;
      ApplyFilters();
    }

    /** The department selector's change handler: take the value, refilter. */
    method SelectDepartment(value: string)
      requires Valid()
      modifies this`selectedDepartment, this`records, this`currentPage, this`info, this`controls, this`noResults
      ensures Valid() && PageInRange() && PageDisplayed()
      ensures selectedDepartment == value && currentPage == 1
      ensures Drawn(Refiltered(old(records), searchTerm, value, selectedYear), 1)
      ensures var count := |VisibleRows(Refiltered(old(records), searchTerm, value, selectedYear))|;
        && info == (if FiltersActive(searchTerm, value, selectedYear)
                    then FilteredCount(count, |old(records)|)
                    else InfoFor(1, recordsPerPage, count))
        && noResults == (count == 0)
    {
      selectedDepartment := value;
      ApplyFilters();
    }

    /** The year selector's change handler: take the value, refilter. */
    method SelectYear(value: string)
      requires Valid()
      modifies this`selectedYear, this`records, this`currentPage, this`info, this`controls, this`noResults
      ensures Valid() && PageInRange() && PageDisplayed()
      ensures selectedYear == value && currentPage == 1
      ensures Drawn(Refiltered(old(records), searchTerm, selectedDepartment, value), 1)
      ensures var count := |VisibleRows(Refiltered(old(records), searchTerm, selectedDepartment, value))|;
        && info == (if FiltersActive(searchTerm, selectedDepartment, value)
                    then FilteredCount(count, |old(records)|)
                    else InfoFor(1, recordsPerPage, count))
        && noResults == (count == 0)
    {
      selectedYear := value;
      ApplyFilters();
    }
  }
}
