/** The selection widgets: the header check box and the bulk delete button. */
module Selection {
  import opened Text
  import opened Rows

  /** The header check box: checked and indeterminate flags. */
  datatype HeaderBox = HeaderBox(checked: bool, indeterminate: bool)

  /** The bulk delete button: disabled flag and caption. */
  datatype DeleteButton = DeleteButton(disabled: bool, caption: string)

  /** Every row of `rs` is selected. */
  ghost predicate AllSelected(rs: seq<Record>, sel: set<nat>) {
    forall i :: 0 <= i < |rs| ==> rs[i].key in sel
  }

  /** Some row of `rs` is selected. */
  ghost predicate SomeSelected(rs: seq<Record>, sel: set<nat>) {
    exists i :: 0 <= i < |rs| && rs[i].key in sel
  }

  /** Counting the selected rows decides "all" and "some": the count reaches the length
      exactly when every row is selected, and is positive exactly when one is. */
  lemma {:induction false} SelectedCount(rs: seq<Record>, sel: set<nat>)
    ensures |SelectedRows(rs, sel)| <= |rs|
    ensures |SelectedRows(rs, sel)| == |rs| <==> AllSelected(rs, sel)
    ensures |SelectedRows(rs, sel)| > 0 <==> SomeSelected(rs, sel)
  {
    if rs != [] {
      var p := rs[..|rs| - 1];
      SelectedCount(p, sel);
      assert forall i :: 0 <= i < |p| ==> p[i] == rs[i];
      if AllSelected(rs, sel) {
        assert AllSelected(p, sel);
      }
      if SomeSelected(p, sel) {
        var i :| 0 <= i < |p| && p[i].key in sel;
        assert rs[i].key in sel;
      }
      if SomeSelected(rs, sel) && !SomeSelected(p, sel) {
        assert rs[|rs| - 1].key in sel;
      }
    }
  }

  /** handleRowSelection's recount over the displayed rows. */
  function HeaderFor(rs: seq<Record>, sel: set<nat>): HeaderBox {
    var shown := ShownRows(rs);
    var n := |SelectedRows(shown, sel)|;
    HeaderBox(n == |shown|, n > 0 && n < |shown|)
  }

  /** The header is checked exactly when every displayed row is selected (so also when none
      is displayed), and indeterminate exactly when some but not all of them are. */
  lemma HeaderMeaning(rs: seq<Record>, sel: set<nat>)
    ensures var h := HeaderFor(rs, sel);
      && (h.checked <==> AllSelected(ShownRows(rs), sel))
      && (h.indeterminate <==> SomeSelected(ShownRows(rs), sel) && !AllSelected(ShownRows(rs), sel))
      && (ShownRows(rs) == [] ==> h == HeaderBox(true, false))
      && !(h.checked && h.indeterminate)
  {
    SelectedCount(ShownRows(rs), sel);
  }

  /** updateDeleteButton for a selection of `n` rows. */
  function DeleteButtonFor(n: nat): DeleteButton {
    if n == 0 then DeleteButton(true, "Delete") else DeleteButton(false, "Delete (" + NatToString(n) + ")")
  }

  /** The button is disabled exactly when nothing is selected; its caption is "Delete" then,
      and otherwise "Delete (n)" with a numeral that reads back as the selection size. */
  lemma DeleteButtonMeaning(n: nat)
    ensures var b := DeleteButtonFor(n);
      && (b.disabled <==> n == 0)
      && (n == 0 ==> b.caption == "Delete")
      && (n > 0 ==>
            && |b.caption| > 9 && b.caption[..8] == "Delete (" && b.caption[|b.caption| - 1] == ')'
            && ParseDecimal(b.caption[8..|b.caption| - 1]) == n)
  {
    if n > 0 {
      var caption := DeleteButtonFor(n).caption;
      assert caption[8..|caption| - 1] == NatToString(n);
      ParseNatToString(n);
    }
  }

  /** The nodes of the displayed rows. */
  function ShownKeys(rs: seq<Record>): set<nat> {
    if rs == [] then {}
    else ShownKeys(rs[..|rs| - 1]) + (if rs[|rs| - 1].shown then {rs[|rs| - 1].key} else {})
  }

  /** A node is among the displayed ones exactly when some displayed row holds it. */
  lemma {:induction false} ShownKeysMembers(rs: seq<Record>)
    ensures forall k :: k in ShownKeys(rs) <==> exists i :: 0 <= i < |rs| && rs[i].shown && rs[i].key == k
  {
    if rs != [] {
      var p := rs[..|rs| - 1];
      ShownKeysMembers(p);
      assert forall i :: 0 <= i < |p| ==> p[i] == rs[i];
    }
  }

  /** Selecting every displayed row makes the recounted header checked and not
      indeterminate. */
  lemma SelectAllChecks(rs: seq<Record>, sel: set<nat>)
    ensures HeaderFor(rs, sel + ShownKeys(rs)) == HeaderBox(true, false)
  {
    HeaderMeaning(rs, sel + ShownKeys(rs));
    ShownRowsAreShown(rs);
    var s := ShownRows(rs);
    assert forall j :: 0 <= j < |s| ==> s[j].key in sel + ShownKeys(rs);
  }

  /** Deselecting every displayed row, when there is one, makes the recounted header
      unchecked and not indeterminate. */
  lemma DeselectAllClears(rs: seq<Record>, sel: set<nat>)
    requires ShownRows(rs) != []
    ensures HeaderFor(rs, sel - ShownKeys(rs)) == HeaderBox(false, false)
  {
    HeaderMeaning(rs, sel - ShownKeys(rs));
    ShownRowsAreShown(rs);
    var s := ShownRows(rs);
    assert s[0].key !in sel - ShownKeys(rs);
  }

  /** The displayed rows are rows of the table with their style shown. */
  lemma {:induction false} ShownRowsAreShown(rs: seq<Record>)
    ensures forall j :: 0 <= j < |ShownRows(rs)| ==>
      ShownRows(rs)[j].shown && ShownRows(rs)[j].key in ShownKeys(rs)
  {
    if rs != [] {
      var p := rs[..|rs| - 1];
      ShownRowsAreShown(p);
      assert forall i :: 0 <= i < |p| ==> p[i] == rs[i];
      var s := ShownRows(rs);
      forall j | 0 <= j < |s| ensures s[j].shown && s[j].key in ShownKeys(rs) {
        if j < |ShownRows(p)| {
          assert s[j] == ShownRows(p)[j];
        } else {
          assert s[j] == rs[|rs| - 1];
        }
      }
    }
  }
}
