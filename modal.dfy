/** ModalManager's handlers that change the alumni table: add, update, clear all, and the
    page pass its constructor runs. Each works on the table manager of the page. */
module Modal {
  import opened Text
  import opened Form
  import opened Rows
  import opened Paging
  import opened Selection
  import opened Table

  // ---- Add ----

  /** The add form's row: appended after every existing row, numbered one past the row
      count, counted by no page (its data-visible is unset) yet displayed (its style is
      unset), whatever the current page. */
  lemma AddedRow(rs: seq<Record>, key: nat, data: FormData)
    ensures var out := rs + [NewRow(key, |rs| + 1, data)];
      && |out| == |rs| + 1 && out[..|rs|] == rs
      && ParseDecimal(out[|rs|].id) == |rs| + 1 && IsDigits(out[|rs|].id)
      && (|rs| + 1 < 1000 ==> |out[|rs|].id| == 3)
      && VisibleRows(out) == VisibleRows(rs)
      && ShownRows(out) == ShownRows(rs) + [out[|rs|]]
  {
    var out := rs + [NewRow(key, |rs| + 1, data)];
    assert out[..|rs|] == rs;
  }

  /** The next page pass (goToPage, applySettings or a delete) hides the added row: it is
      not counted as visible, so no page window holds it. */
  lemma PagePassHidesAddedRow(rs: seq<Record>, key: nat, data: FormData, lo: nat, hi: nat)
    ensures var out := Paged(rs + [NewRow(key, |rs| + 1, data)], lo, hi);
      |out| == |rs| + 1 && !out[|rs|].shown
  {
  }

  /** The id is the row count plus one, so after a deletion a new row repeats the id of the
      last row. */
  lemma AddAfterDeleteRepeatsId(rs: seq<Record>, key: nat, data: FormData)
    requires |rs| >= 2 && UniqueKeys(rs) && rs[|rs| - 1].id == PadId(|rs|)
    ensures var rest := Without(rs, {rs[0].key});
      && rest[|rest| - 1] == rs[|rs| - 1]
      && NewRow(key, |rest| + 1, data).id == rest[|rest| - 1].id
  {
    assert rs[0] in rs;
    KeepsLast(rs, rs[0].key);
  }

  /** `tbody.appendChild(row)` for a node created just now. */
  method AppendNode(t: TableManager, row: Record)
    requires t.Valid() && row.key == t.nextKey
    modifies t`records, t`nextKey
    ensures t.Valid()
    ensures t.records == old(t.records) + [row] && t.nextKey == old(t.nextKey) + 1
    ensures Keys(t.records) == Keys(old(t.records)) + {row.key}
  {
    AppendFresh(t.records, row, t.nextKey);
    t.records := t.records + [row];
    t.nextKey := t.nextKey + 1;
  }

  /** addAlumniToTable: a new row node built from the form is appended to the table body. */
  method AddAlumniToTable(t: TableManager, data: FormData)
    requires t.Valid()
    modifies t`records, t`nextKey
    ensures t.Valid()
    ensures t.records == old(t.records) + [NewRow(old(t.nextKey), |old(t.records)| + 1, data)]
    ensures t.nextKey == old(t.nextKey) + 1
    ensures Keys(t.records) == Keys(old(t.records)) + {old(t.nextKey)}
    ensures old(t.nextKey) !in t.selected
  {
    AppendNode(t, NewRow(t.nextKey, |t.records| + 1, data));
  }

  /** handleAddAlumni: a rejected form shows validateForm's notice and changes nothing; an
      accepted one is reported and its row appended. */
  method HandleAddAlumni(t: TableManager, data: FormData) returns (notice: Notice)
    requires t.Valid()
    modifies t`records, t`nextKey
    ensures t.Valid()
    ensures ValidateForm(data).Rejected? ==>
      notice == ValidationNotice(ValidateForm(data).error) && unchanged(t)
    ensures ValidateForm(data).Accepted? ==>
      && notice == Notice("Alumni added successfully!", Success)
      && t.records == old(t.records) + [NewRow(old(t.nextKey), |old(t.records)| + 1, data)]
      && t.nextKey == old(t.nextKey) + 1
      && old(t.nextKey) !in t.selected
  {
    var verdict := ValidateForm(data);
    if verdict.Rejected? {
      return ValidationNotice(verdict.error);
    }
    notice := Notice("Alumni added successfully!", Success);
    AddAlumniToTable(t, data);
  }

  // ---- Update ----

  /** handleUpdateSelected: no selected row and several selected rows are refused with two
      different notices; a single selected row fills the update form with its cell texts. */
  function SelectedForUpdate(rs: seq<Record>, sel: set<nat>): (o: Outcome<FormData>)
    ensures |SelectedRows(rs, sel)| == 0 <==>
      o == Fail(Notice("Please select at least one alumni record to update", Error))
    ensures |SelectedRows(rs, sel)| > 1 <==>
      o == Fail(Notice("Please select only one alumni record to update", Error))
    ensures |SelectedRows(rs, sel)| == 1 <==> o.Ok?
    ensures o.Ok? ==> exists i :: 0 <= i < |rs| && rs[i].key in sel && o.value == FormOf(rs[i])
  {
    var s := SelectedRows(rs, sel);
    if |s| == 0 then Fail(Notice("Please select at least one alumni record to update", Error))
    else if |s| > 1 then Fail(Notice("Please select only one alumni record to update", Error))
    else
      SelectedRowsMembers(rs, sel);
      assert s[0] in s;
      Ok(FormOf(s[0]))
  }

  /** `querySelectorAll('tbody tr.selected')`: how many rows are selected, and the position
      of the first of them in table order. */
  method FindSelected(rs: seq<Record>, sel: set<nat>) returns (count: nat, first: nat)
    ensures count == |SelectedRows(rs, sel)|
    ensures count > 0 ==> first < |rs| && rs[first].key in sel && rs[first] == SelectedRows(rs, sel)[0]
  {
    count, first := 0, 0;
    var i := 0;
    while i < |rs|
      invariant 0 <= i <= |rs|
      invariant count == |SelectedRows(rs[..i], sel)|
      invariant count > 0 ==> first < i && rs[first].key in sel && rs[first] == SelectedRows(rs[..i], sel)[0]
    {
      assert rs[..i + 1][..i] == rs[..i];
      if rs[i].key in sel {
        if count == 0 {
          first := i;
        }
        count := count + 1;
      }
      i := i + 1;
    }
    assert rs[..i] == rs;
  }

  /** Exactly one selected row, at `i`: no other row is selected. */
  lemma OnlySelected(rs: seq<Record>, sel: set<nat>, i: nat)
    requires UniqueKeys(rs) && i < |rs| && rs[i].key in sel && |SelectedRows(rs, sel)| == 1
    ensures forall j :: 0 <= j < |rs| && j != i ==> rs[j].key !in sel
  {
    forall j | 0 <= j < |rs| && j != i ensures rs[j].key !in sel {
      if rs[j].key in sel {
        TwoSelected(rs, sel, i, j);
      }
    }
  }

  /** The update's writes to row `i`: its six cells take the form's values. */
  method OverwriteRow(t: TableManager, i: nat, data: FormData)
    requires t.Valid() && i < |t.records|
    modifies t`records
    ensures t.Valid()
    ensures t.records == Rewritten(old(t.records), old(t.records)[i].key, data)
    ensures SameNodes(old(t.records), t.records)
  {
    RewriteAt(t.records, i, data);
    ghost var before := t.records;
    t.records := t.records[i := Overwrite(t.records[i], data)];
    assert SameNodes(before, t.records);
    SameNodesKeep(before, t.records, t.nextKey);
  }

  /** handleUpdateAlumni: a rejected form shows validateForm's notice; otherwise, unless
      exactly one row is selected, the update is refused; with one, that row's six cells
      take the form's values in place (its node, id, avatar, position and flags kept), it is
      deselected and the delete button recounted. Refusals change nothing. */
  method HandleUpdateAlumni(t: TableManager, data: FormData) returns (notice: Notice)
    requires t.Valid()
    modifies t`records, t`selected, t`deleteButton
    ensures t.Valid()
    ensures ValidateForm(data).Rejected? ==>
      notice == ValidationNotice(ValidateForm(data).error) && unchanged(t)
    ensures ValidateForm(data).Accepted? && |SelectedRows(old(t.records), old(t.selected))| != 1 ==>
      notice == Notice("Please select exactly one alumni record to update", Error) && unchanged(t)
    ensures ValidateForm(data).Accepted? && |SelectedRows(old(t.records), old(t.selected))| == 1 ==>
      var row := SelectedRows(old(t.records), old(t.selected))[0];
      && notice == Notice("Alumni updated successfully!", Success)
      && t.records == Rewritten(old(t.records), row.key, data)
      && t.selected == old(t.selected) - {row.key}
      && t.deleteButton == DeleteButtonFor(|t.selected|)
      && SelectedRows(t.records, t.selected) == []
  {
    var verdict := ValidateForm(data);
    if verdict.Rejected? {
      return ValidationNotice(verdict.error);
    }
    notice := UpdateSelectedRow(t, data);
  }

  /** handleUpdateAlumni once the form is accepted. */
  method UpdateSelectedRow(t: TableManager, data: FormData) returns (notice: Notice)
    requires t.Valid()
    modifies t`records, t`selected, t`deleteButton
    ensures t.Valid()
    ensures |SelectedRows(old(t.records), old(t.selected))| != 1 ==>
      notice == Notice("Please select exactly one alumni record to update", Error) && unchanged(t)
    ensures |SelectedRows(old(t.records), old(t.selected))| == 1 ==>
      var row := SelectedRows(old(t.records), old(t.selected))[0];
      && notice == Notice("Alumni updated successfully!", Success)
      && t.records == Rewritten(old(t.records), row.key, data)
      && t.selected == old(t.selected) - {row.key}
      && t.deleteButton == DeleteButtonFor(|t.selected|)
      && SelectedRows(t.records, t.selected) == []
  {
    var count, first := FindSelected(t.records, t.selected);
    if count != 1 {
      return Notice("Please select exactly one alumni record to update", Error);
    }
    var key := t.records[first].key;
    var sel := t.selected;
    OnlySelected(t.records, sel, first);
    OverwriteRow(t, first, data);
    t.selected := sel - {key};
    assert forall j :: 0 <= j < |t.records| ==> t.records[j].key !in t.selected;
    NoneSelected(t.records, t.selected);
    t.UpdateDeleteButton();
    notice := Notice("Alumni updated successfully!", Success);
  }

  /** Rewriting a row's cells keeps every node in place and every flag, so the counted rows,
      the page window and the displayed rows are those of before. */
  lemma RewriteKeepsView(rs: seq<Record>, key: nat, data: FormData, lo: nat, hi: nat)
    ensures var out := Rewritten(rs, key, data);
      && SameNodes(rs, out)
      && |VisibleRows(out)| == |VisibleRows(rs)|
      && (ShowsWindow(rs, lo, hi) ==> ShowsWindow(out, lo, hi))
      && (forall i :: 0 <= i < |rs| ==> out[i].id == rs[i].id)
      && (forall i :: 0 <= i < |rs| && rs[i].key == key ==> FormOf(out[i]) == data)
      && (forall i :: 0 <= i < |rs| && rs[i].key != key ==> out[i] == rs[i])
  {
    var out := Rewritten(rs, key, data);
    SameFlagsSameCount(out, rs);
    forall i | 0 <= i < |rs| ensures Rank(out, i) == Rank(rs, i) {
      SameFlagsSameCount(out[..i], rs[..i]);
    }
  }

  // ---- Clear all ----

  /** handleClearAll after the confirmation dialog: the table body is emptied and nothing
      else is touched, so a non-empty selection is left naming rows that are gone. */
  method HandleClearAll(t: TableManager, confirmed: bool) returns (notice: Option<Notice>)
    requires t.Valid()
    modifies t`records
    ensures t.Valid()
    ensures !confirmed ==> notice == None && unchanged(t)
    ensures confirmed ==>
      && notice == Some(Notice("All alumni data cleared!", Success))
      && t.records == [] && VisibleRows(t.records) == [] && ShownRows(t.records) == []
      && (old(t.selected) != {} ==> !t.SelectionInStore())
  {
    notice := None;
    if confirmed {
      t.records := [];
      assert Keys(t.records) == {};
      notice := Some(Notice("All alumni data cleared!", Success));
    }
  }

  // ---- ModalManager.showCurrentPage ----

  /** A JavaScript number as far as the page pass needs one: an integer or NaN (what
      `undefined` turns into in arithmetic). */
  datatype JsNumber = Finite(value: int) | NaN

  function JsSub(a: JsNumber, b: JsNumber): JsNumber {
    if a.Finite? && b.Finite? then Finite(a.value - b.value) else NaN
  }

  function JsMul(a: JsNumber, b: JsNumber): JsNumber {
    if a.Finite? && b.Finite? then Finite(a.value * b.value) else NaN
  }

  function JsAdd(a: JsNumber, b: JsNumber): JsNumber {
    if a.Finite? && b.Finite? then Finite(a.value + b.value) else NaN
  }

  /** `>=` and `<`: every comparison with NaN is false. */
  predicate JsAtLeast(a: JsNumber, b: JsNumber) {
    a.Finite? && b.Finite? && a.value >= b.value
  }

  predicate JsBelow(a: JsNumber, b: JsNumber) {
    a.Finite? && b.Finite? && a.value < b.value
  }

  /** The page pass with JavaScript bounds: a visible row is displayed when its count is at
      least `lo` and below `hi`; every other row is hidden. */
  function JsPaged(rs: seq<Record>, lo: JsNumber, hi: JsNumber): seq<Record> {
    seq(|rs|, i requires 0 <= i < |rs| =>
      rs[i].(shown := rs[i].visible && JsAtLeast(Finite(Rank(rs, i)), lo) && JsBelow(Finite(Rank(rs, i)), hi)))
  }

  /** ModalManager.showCurrentPage on its own `currentPage` and `recordsPerPage` fields. */
  method ModalShowCurrentPage(rows: seq<Record>, currentPage: JsNumber, recordsPerPage: JsNumber)
    returns (out: seq<Record>)
    ensures var start := JsMul(JsSub(currentPage, Finite(1)), recordsPerPage);
      out == JsPaged(rows, start, JsAdd(start, recordsPerPage))
  {
    var startIndex := JsMul(JsSub(currentPage, Finite(1)), recordsPerPage);
    var endIndex := JsAdd(startIndex, recordsPerPage);
    out := rows;
    var index := 0;
    var i := 0;
    while i < |out|
      invariant 0 <= i <= |out| == |rows| && index == Rank(rows, i)
      invariant forall j :: 0 <= j < i ==>
        out[j] == rows[j].(shown := rows[j].visible && JsAtLeast(Finite(Rank(rows, j)), startIndex)
                                    && JsBelow(Finite(Rank(rows, j)), endIndex))
      invariant forall j :: i <= j < |out| ==> out[j] == rows[j]
    {
      RankStep(rows, i);
      var inWindow := JsAtLeast(Finite(index), startIndex) && JsBelow(Finite(index), endIndex);
      out := out[i := out[i].(shown := out[i].visible && inWindow)];
      if rows[i].visible {
        index := index + 1;
      }
      i := i + 1;
    }
  }

  /** With integer bounds the pass is TableManager's page pass. */
  lemma JsPagedFinite(rs: seq<Record>, lo: nat, hi: nat)
    ensures JsPaged(rs, Finite(lo), Finite(hi)) == Paged(rs, lo, hi)
  {
  }

  /** With the fields undefined every bound is NaN and the pass hides every row. */
  lemma {:induction false} UndefinedPageHidesAll(rs: seq<Record>)
    ensures var start := JsMul(JsSub(NaN, Finite(1)), NaN);
      ShownRows(JsPaged(rs, start, JsAdd(start, NaN))) == []
  {
    var out := JsPaged(rs, NaN, NaN);
    forall i | 0 <= i < |out| ensures !out[i].shown {
    }
    NoneShown(out);
  }

  lemma {:induction false} NoneShown(rs: seq<Record>)
    requires forall i :: 0 <= i < |rs| ==> !rs[i].shown
    ensures ShownRows(rs) == []
  {
    if rs != [] {
      NoneShown(rs[..|rs| - 1]);
    }
  }

  /** handleDelete as written: after the table is redrawn, the notification is sent through
      a new ModalManager, whose constructor runs its own page pass with both fields
      undefined. */
  method DeleteAsWritten(t: TableManager, confirmed: bool) returns (notice: Option<Notice>)
    requires t.Valid()
    modifies t`records, t`selected, t`deleteButton, t`currentPage, t`info, t`controls
    ensures notice.Some? ==>
      && |VisibleRows(t.records)| == |VisibleRows(Without(old(t.records), old(t.selected)))|
      && ShownRows(t.records) == []
  {
    notice := t.HandleDelete(confirmed);
    if notice.Some? {
      ghost var drawn := t.records;
      t.records := ModalShowCurrentPage(t.records, NaN, NaN);
      UndefinedPageHidesAll(drawn);
      assert |VisibleRows(t.records)| == |VisibleRows(drawn)| by {
        SameFlagsSameCount(t.records, drawn);
      }
      PagedShowsWindow(Without(old(t.records), old(t.selected)), PageStart(t.currentPage, t.recordsPerPage),
                       PageEnd(t.currentPage, t.recordsPerPage));
    }
  }

  /** handleRowDelete as written: the same page pass follows the redraw. */
  method RowDeleteAsWritten(t: TableManager, key: nat, confirmed: bool) returns (notice: Option<Notice>)
    requires t.Valid()
    modifies t`records, t`selected, t`deleteButton, t`currentPage, t`info, t`controls
    ensures notice.Some? ==>
      && |VisibleRows(t.records)| == |VisibleRows(Without(old(t.records), {key}))|
      && ShownRows(t.records) == []
  {
    notice := t.HandleRowDelete(key, confirmed);
    if notice.Some? {
      ghost var drawn := t.records;
      t.records := ModalShowCurrentPage(t.records, NaN, NaN);
      UndefinedPageHidesAll(drawn);
      assert |VisibleRows(t.records)| == |VisibleRows(drawn)| by {
        SameFlagsSameCount(t.records, drawn);
      }
      PagedShowsWindow(Without(old(t.records), {key}), PageStart(t.currentPage, t.recordsPerPage),
                       PageEnd(t.currentPage, t.recordsPerPage));
    }
  }

  /** Two visible rows on page 1 of four, the first selected and deleted: the redraw of
      handleDelete displays the remaining row, and the pass that follows hides it although
      it is still counted. */
  lemma DeleteHidesRemainingRow()
    ensures var a := Record(0, "001", "", "", "", "", "", "-", "-", true, true);
      var b := Record(1, "002", "", "", "", "", "", "-", "-", true, true);
      var redrawn := Paged(Without([a, b], {0}), PageStart(1, 4), PageEnd(1, 4));
      var start := JsMul(JsSub(NaN, Finite(1)), NaN);
      && |VisibleRows(redrawn)| == 1
      && |ShownRows(redrawn)| == 1
      && ShownRows(JsPaged(redrawn, start, JsAdd(start, NaN))) == []
  {
    var a := Record(0, "001", "", "", "", "", "", "-", "-", true, true);
    var b := Record(1, "002", "", "", "", "", "", "-", "-", true, true);
    assert [a, b][..1] == [a];
    assert Without([a], {0}) == [];
    assert Without([a, b], {0}) == [b];
    assert [b][..0] == [];
    var redrawn := Paged([b], 0, 4);
    assert Rank([b], 0) == 0;
    assert redrawn == [b];
    assert redrawn[..0] == [];
    UndefinedPageHidesAll(redrawn);
  }
}
