/** The rows of the alumni table body and the derived views over them. */
module Rows {
  import opened Text
  import opened Form

  /** One table row. `key` stands for the row's DOM node (stable, never shown); `id` is the
      text of its id badge. `visible` is the row's data-visible attribute (set only by the
      filter pass) and `shown` says its style is not display: none (set only by the page
      pass). `initials` is the avatar text, written once when the row is created. */
  datatype Record = Record(
    key: nat,
    id: string,
    initials: string,
    name: string,
    email: string,
    department: string,
    year: string,
    jobTitle: string,
    company: string,
    visible: bool,
    shown: bool)

  /** The white space between two cells in the row's text content. */
  const CellGap: string := " "

  /** row.textContent: the text of every cell in order (the checkbox and buttons have none). */
  function RowText(r: Record): string {
    r.id + CellGap + r.initials + CellGap + r.name + CellGap + r.email + CellGap
    + r.department + CellGap + r.year + CellGap + r.jobTitle + CellGap + r.company
  }

  /** `name.split(' ').map(n => n[0]).join('').toUpperCase()`: the first character of
      every non-empty space-separated word, upper-cased, in order. The avatar shows it,
      and it is part of the row text the search reads. */
  function Initials(name: string): (r: string)
    ensures |r| <= |name|
    ensures r == Upper(FirstChars(Split(name)))
  {
    WordStartsSplit(name, true);
    WordStarts(name, true)
  }

  /** `pieces.map(n => n[0]).join('')`: the first character of every piece; an empty
      piece gives `undefined`, which join writes as nothing. */
  function FirstChars(pieces: seq<string>): string {
    if pieces == [] then ""
    else (if pieces[0] == "" then "" else [pieces[0][0]]) + FirstChars(pieces[1..])
  }

  /** The scan for word starts picks the first character of each piece of split(' '); a
      scan that begins inside a word skips the first piece. */
  lemma {:induction false} WordStartsSplit(s: string, atStart: bool)
    ensures WordStarts(s, atStart) ==
      Upper(if atStart then FirstChars(Split(s)) else FirstChars(Split(s)[1..]))
  {
    if s != [] {
      var rest := Split(s[1..]);
      WordStartsSplit(s[1..], true);
      WordStartsSplit(s[1..], false);
      if s[0] == ' ' {
        assert Split(s) == [""] + rest;
        assert Split(s)[1..] == rest;
      } else {
        assert Split(s) == [[s[0]] + rest[0]] + rest[1..];
        assert Split(s)[1..] == rest[1..];
        UpperAppend([s[0]], FirstChars(rest[1..]));
      }
    }
  }

  /** The characters of `s` that begin a word; `atStart` says a word may begin at s[0]. */
  function WordStarts(s: string, atStart: bool): (r: string)
    ensures |r| <= |s|
  {
    if s == [] then []
    else if s[0] == ' ' then WordStarts(s[1..], true)
    else (if atStart then [UpperChar(s[0])] else []) + WordStarts(s[1..], false)
  }

  /** `data.jobTitle || '-'`: an empty cell is shown as a dash. */
  function OrDash(s: string): (r: string)
    ensures r != ""
    ensures s == "" ==> r == "-"
    ensures s != "" ==> r == s
  {
    if s == "" then "-" else s
  }

  /** `String(n).padStart(3, '0')`: the id badge text of the n-th row. It reads back as
      n, is all digits, and is exactly three characters wide for n below 1000. It starts
      with a padding zero exactly when n is below 100; from 100 on it is String(n) itself. */
  function PadId(n: nat): (id: string)
    ensures ParseDecimal(id) == n && IsDigits(id)
    ensures |id| >= 3 && (n < 1000 <==> |id| == 3)
    ensures n >= 100 ==> id == NatToString(n)
    ensures id[0] == '0' <==> n < 100
  {
    PadIdReadsBack(n);
    PadIdDigits(n);
    NatToStringWidth(n);
    NatToStringThreeDigits(n);
    PadStart(NatToString(n), 3, '0')
  }

  lemma PadIdReadsBack(n: nat)
    ensures ParseDecimal(PadStart(NatToString(n), 3, '0')) == n
  {
    var digits := NatToString(n);
    var id := PadStart(digits, 3, '0');
    var zeros := Repeat('0', |id| - |digits|);
    assert id == zeros + digits;
    LeadingZeros(|zeros|, digits);
    ParseNatToString(n);
  }

  lemma PadIdDigits(n: nat)
    ensures IsDigits(PadStart(NatToString(n), 3, '0'))
  {
    var digits := NatToString(n);
    var id := PadStart(digits, 3, '0');
    var k := |id| - |digits|;
    forall i | 0 <= i < |id| ensures IsDigit(id[i]) {
      if i >= k {
        assert id[i] == id[k..][i - k] == digits[i - k];
      }
    }
  }

  /** The row addAlumniToTable builds as the `count`-th row of the table. */
  function NewRow(key: nat, count: nat, data: FormData): (r: Record)
    ensures r.key == key && r.id == PadId(count) && r.initials == Initials(data.name)
    ensures r.name == data.name && r.email == data.email
    ensures r.department == data.department && r.year == data.year
    ensures r.jobTitle == OrDash(data.jobTitle) && r.company == OrDash(data.company)
    ensures !r.visible && r.shown
  {
    Record(key, PadId(count), Initials(data.name), data.name, data.email, data.department,
           data.year, OrDash(data.jobTitle), OrDash(data.company), false, true)
  }

  /** The six cell texts handleUpdateSelected copies into the update form. */
  function FormOf(r: Record): FormData {
    FormData(r.name, r.email, r.department, r.year, r.jobTitle, r.company)
  }

  /** The update handler's write: the six form fields replace the cell texts (the job title
      and company as typed, with no dash); the node, the id badge, the avatar and both flags
      keep their values, and reading the form back gives exactly what was written. */
  function Overwrite(r: Record, data: FormData): (o: Record)
    ensures FormOf(o) == data
    ensures o.key == r.key && o.id == r.id && o.initials == r.initials
    ensures o.visible == r.visible && o.shown == r.shown
  {
    r.(name := data.name, email := data.email, department := data.department,
       year := data.year, jobTitle := data.jobTitle, company := data.company)
  }

  /** Saving the update form as it was filled in leaves the row as it was. */
  lemma OverwriteSameForm(r: Record)
    ensures Overwrite(r, FormOf(r)) == r
  {
  }

  /** The table with the row of node `key` overwritten from `data`, every other row kept. */
  function Rewritten(rs: seq<Record>, key: nat, data: FormData): seq<Record> {
    seq(|rs|, i requires 0 <= i < |rs| => if rs[i].key == key then Overwrite(rs[i], data) else rs[i])
  }

  /** Writing row `i` of a table of distinct nodes is rewriting the row of its node. */
  lemma RewriteAt(rs: seq<Record>, i: nat, data: FormData)
    requires UniqueKeys(rs) && i < |rs|
    ensures rs[i := Overwrite(rs[i], data)] == Rewritten(rs, rs[i].key, data)
  {
  }

  // ---- Views over the row sequence; each keeps the order of the table ----

  function Keys(rs: seq<Record>): set<nat> {
    set r | r in rs :: r.key
  }

  /** No two rows share a node. */
  predicate UniqueKeys(rs: seq<Record>) {
    forall i, j :: 0 <= i < j < |rs| ==> rs[i].key != rs[j].key
  }

  /** The rows whose data-visible is true. */
  function VisibleRows(rs: seq<Record>): seq<Record> {
    if rs == [] then []
    else VisibleRows(rs[..|rs| - 1]) + (if rs[|rs| - 1].visible then [rs[|rs| - 1]] else [])
  }

  /** When every row is visible, the visible rows are the whole table. */
  lemma {:induction false} AllVisible(rs: seq<Record>)
    requires forall i :: 0 <= i < |rs| ==> rs[i].visible
    ensures VisibleRows(rs) == rs
  {
    if rs != [] {
      AllVisible(rs[..|rs| - 1]);
    }
  }

  /** The rows not hidden by their style. */
  function ShownRows(rs: seq<Record>): seq<Record> {
    if rs == [] then []
    else ShownRows(rs[..|rs| - 1]) + (if rs[|rs| - 1].shown then [rs[|rs| - 1]] else [])
  }

  /** The rows whose node is in `sel`. */
  function SelectedRows(rs: seq<Record>, sel: set<nat>): seq<Record> {
    if rs == [] then []
    else SelectedRows(rs[..|rs| - 1], sel) + (if rs[|rs| - 1].key in sel then [rs[|rs| - 1]] else [])
  }

  /** The rows listed as selected are exactly the rows of the table whose node is in `sel`. */
  lemma {:induction false} SelectedRowsMembers(rs: seq<Record>, sel: set<nat>)
    ensures forall r :: r in SelectedRows(rs, sel) <==> r in rs && r.key in sel
  {
    if rs != [] {
      var p := rs[..|rs| - 1];
      SelectedRowsMembers(p, sel);
      assert rs == p + [rs[|rs| - 1]];
    }
  }

  /** Two distinct selected nodes make two selected rows. */
  lemma TwoSelected(rs: seq<Record>, sel: set<nat>, i: nat, j: nat)
    requires i < |rs| && j < |rs| && rs[i].key != rs[j].key
    requires rs[i].key in sel && rs[j].key in sel
    ensures |SelectedRows(rs, sel)| >= 2
  {
    SelectedRowsMembers(rs, sel);
    var s := SelectedRows(rs, sel);
    assert rs[i] in s && rs[j] in s && rs[i] != rs[j];
  }

  /** With no row's node in `sel`, no row is listed as selected. */
  lemma NoneSelected(rs: seq<Record>, sel: set<nat>)
    requires forall i :: 0 <= i < |rs| ==> rs[i].key !in sel
    ensures SelectedRows(rs, sel) == []
  {
    SelectedRowsMembers(rs, sel);
    var s := SelectedRows(rs, sel);
    assert forall k :: 0 <= k < |s| ==> s[k] in s;
  }

  /** The table after the rows whose node is in `gone` have been removed. */
  function Without(rs: seq<Record>, gone: set<nat>): seq<Record> {
    if rs == [] then []
    else Without(rs[..|rs| - 1], gone) + (if rs[|rs| - 1].key in gone then [] else [rs[|rs| - 1]])
  }

  /** handleDelete's loop over the selection: remove each selected node from the table in
      turn (removing a node no longer in the table does nothing). */
  method RemoveRows(rs: seq<Record>, gone: set<nat>) returns (out: seq<Record>)
    ensures out == Without(rs, gone)
  {
    out := rs;
    var pending := gone;
    WithoutNone(rs, {});
    assert gone - pending == {};
    while pending != {}
      invariant pending <= gone
      invariant out == Without(rs, gone - pending)
      decreases |pending|
    {
      var k :| k in pending;
      WithoutTwice(rs, gone - pending, {k});
      out := Without(out, {k});
      assert gone - pending + {k} == gone - (pending - {k});
      pending := pending - {k};
    }
    assert gone - {} == gone;
  }

  /** Removal keeps exactly the rows outside `gone`, each unchanged and in table order. */
  lemma {:induction false} WithoutKeeps(rs: seq<Record>, gone: set<nat>)
    ensures Keys(Without(rs, gone)) == Keys(rs) - gone
    ensures forall r :: r in Without(rs, gone) <==> r in rs && r.key !in gone
    ensures |Without(rs, gone)| <= |rs|
  {
    if rs != [] {
      var p := rs[..|rs| - 1];
      WithoutKeeps(p, gone);
      assert rs == p + [rs[|rs| - 1]];
    }
  }

  /** Removing one set of rows and then another is removing both at once. */
  lemma {:induction false} WithoutTwice(rs: seq<Record>, a: set<nat>, b: set<nat>)
    ensures Without(Without(rs, a), b) == Without(rs, a + b)
  {
    if rs != [] {
      var p := rs[..|rs| - 1];
      WithoutTwice(p, a, b);
      var w := Without(p, a);
      var x := rs[|rs| - 1];
      if x.key !in a {
        assert (w + [x])[..|w + [x]| - 1] == w;
      } else {
        assert w + [] == w;
      }
    }
  }

  /** Without one present node, a table of distinct nodes loses exactly one row. */
  lemma {:induction false} WithoutOne(rs: seq<Record>, k: nat)
    requires UniqueKeys(rs) && k in Keys(rs)
    ensures |Without(rs, {k})| == |rs| - 1
  {
    var p := rs[..|rs| - 1];
    var x := rs[|rs| - 1];
    assert UniqueKeys(p);
    if x.key == k {
      assert forall i :: 0 <= i < |p| ==> p[i].key != k by {
        assert forall i :: 0 <= i < |p| ==> p[i] == rs[i];
      }
      WithoutNone(p, {k});
    } else {
      assert k in Keys(p) by {
        var r :| r in rs && r.key == k;
        var i :| 0 <= i < |rs| && rs[i] == r;
        assert i < |rs| - 1;
        assert p[i] == r;
      }
      WithoutOne(p, k);
    }
  }

  /** Removing a node other than the last row's keeps that row last. */
  lemma KeepsLast(rs: seq<Record>, k: nat)
    requires |rs| > 0 && UniqueKeys(rs) && k in Keys(rs) && rs[|rs| - 1].key != k
    ensures var rest := Without(rs, {k});
      |rest| == |rs| - 1 && rest[|rest| - 1] == rs[|rs| - 1]
  {
    WithoutOne(rs, k);
  }

  /** Removing nodes that are not in the table changes nothing. */
  lemma {:induction false} WithoutNone(rs: seq<Record>, gone: set<nat>)
    requires forall i :: 0 <= i < |rs| ==> rs[i].key !in gone
    ensures Without(rs, gone) == rs
  {
    if rs != [] {
      WithoutNone(rs[..|rs| - 1], gone);
    }
  }

  /** Every filtered view of distinct nodes is a table of distinct nodes. */
  lemma {:induction false} WithoutUnique(rs: seq<Record>, gone: set<nat>)
    requires UniqueKeys(rs)
    ensures UniqueKeys(Without(rs, gone))
  {
    if rs != [] {
      var p := rs[..|rs| - 1];
      var x := rs[|rs| - 1];
      WithoutUnique(p, gone);
      WithoutKeeps(p, gone);
      if x.key !in gone {
        assert x.key !in Keys(p) by {
          assert forall i :: 0 <= i < |p| ==> p[i] == rs[i];
        }
        assert x.key !in Keys(Without(p, gone));
        var w := Without(p, gone) + [x];
        forall i, j | 0 <= i < j < |w| ensures w[i].key != w[j].key {
          if j == |w| - 1 { assert w[i] in Without(p, gone); }
        }
      }
    }
  }

  /** Two tables hold the same nodes in the same order; only flags or cell texts differ. */
  predicate SameNodes(a: seq<Record>, b: seq<Record>) {
    |a| == |b| && forall i :: 0 <= i < |a| ==> a[i].key == b[i].key
  }

  /** Every node of the table was created before the `n`-th. */
  predicate KeysBelow(rs: seq<Record>, n: nat) {
    forall i :: 0 <= i < |rs| ==> rs[i].key < n
  }

  /** A node of the table lies below the table's bound. */
  lemma KeyBelow(rs: seq<Record>, n: nat, k: nat)
    requires KeysBelow(rs, n) && k in Keys(rs)
    ensures k < n
  {
    var r :| r in rs && r.key == k;
    var i :| 0 <= i < |rs| && rs[i] == r;
  }

  /** Rewriting flags or cells keeps the set of nodes, their distinctness and their bound. */
  lemma SameNodesKeep(a: seq<Record>, b: seq<Record>, n: nat)
    requires SameNodes(a, b)
    ensures Keys(a) == Keys(b)
    ensures UniqueKeys(a) ==> UniqueKeys(b)
    ensures KeysBelow(a, n) ==> KeysBelow(b, n)
  {
    forall k | k in Keys(a) ensures k in Keys(b) {
      var r :| r in a && r.key == k;
      var i :| 0 <= i < |a| && a[i] == r;
      assert b[i] in b;
    }
    forall k | k in Keys(b) ensures k in Keys(a) {
      var r :| r in b && r.key == k;
      var i :| 0 <= i < |b| && b[i] == r;
      assert a[i] in a;
    }
  }

  /** Removing rows keeps the bound on the remaining nodes. */
  lemma WithoutBelow(rs: seq<Record>, gone: set<nat>, n: nat)
    requires KeysBelow(rs, n)
    ensures KeysBelow(Without(rs, gone), n)
  {
    WithoutKeeps(rs, gone);
    var w := Without(rs, gone);
    forall i | 0 <= i < |w| ensures w[i].key < n {
      assert w[i] in rs;
    }
  }

  /** Appending a fresh node to a table of older distinct nodes keeps them distinct. */
  lemma AppendFresh(rs: seq<Record>, r: Record, n: nat)
    requires UniqueKeys(rs) && KeysBelow(rs, n) && r.key == n
    ensures UniqueKeys(rs + [r]) && KeysBelow(rs + [r], n + 1)
    ensures Keys(rs + [r]) == Keys(rs) + {n}
  {
  }
}
