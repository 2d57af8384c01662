/** The filter pass of applyFilters: which rows are marked data-visible. */
module Filters {
  import opened Text
  import opened Rows

  /** The selector values that mean "no restriction" (the filters' first options), and
      the same values lower-cased and trimmed. */
  const AllDepartments: string := "All Departments"
  const AllYears: string := "All Years"
  const AnyDepartment: string := "all departments"
  const AnyYear: string := "all years"

  /** `(value || fallback).toLowerCase().trim()`, with the fallback given already lower-cased
      and trimmed (SentinelsNormalized shows the two forms agree). */
  function Normalize(value: string, normalFallback: string): string {
    if value == "" then normalFallback else Trim(Lower(value))
  }

  /** The department selector is the sentinel, or equals the row's department text
      compared lower-cased and trimmed. */
  predicate MatchesDepartment(r: Record, selectedDepartment: string) {
    var d := Normalize(selectedDepartment, AnyDepartment);
    d == AnyDepartment || Trim(Lower(r.department)) == d
  }

  /** The same test for the year selector and the row's year cell. */
  predicate MatchesYear(r: Record, selectedYear: string) {
    var y := Normalize(selectedYear, AnyYear);
    y == AnyYear || Trim(Lower(r.year)) == y
  }

  /** The search term, lower-cased and trimmed, is empty or occurs in the lower-cased row text. */
  predicate MatchesSearch(r: Record, searchTerm: string) {
    var t := Trim(Lower(searchTerm));
    t == "" || Contains(Lower(RowText(r)), t)
  }

  /** A row is visible exactly when all three filters accept it. */
  predicate Matches(r: Record, searchTerm: string, selectedDepartment: string, selectedYear: string) {
    MatchesDepartment(r, selectedDepartment) && MatchesYear(r, selectedYear)
    && MatchesSearch(r, searchTerm)
  }

  /** The table after the filter pass: every row's data-visible is recomputed, nothing else. */
  function Refiltered(rs: seq<Record>, searchTerm: string, selectedDepartment: string,
                      selectedYear: string): seq<Record>
  {
    seq(|rs|, i requires 0 <= i < |rs| =>
      rs[i].(visible := Matches(rs[i], searchTerm, selectedDepartment, selectedYear)))
  }

  /** applyFilters' loop: mark each row data-visible exactly when it matches, counting the
      matches. */
  method FilterPass(rows: seq<Record>, searchTerm: string, selectedDepartment: string,
                    selectedYear: string) returns (out: seq<Record>, matching: nat)
    ensures out == Refiltered(rows, searchTerm, selectedDepartment, selectedYear)
    ensures matching == |VisibleRows(out)|
  {
    ghost var target := Refiltered(rows, searchTerm, selectedDepartment, selectedYear);
    out := rows;
    matching := 0;
    var i := 0;
    while i < |out|
      invariant 0 <= i <= |out| == |rows|
      invariant forall j :: 0 <= j < i ==> out[j] == target[j]
      invariant forall j :: i <= j < |out| ==> out[j] == rows[j]
      invariant matching == |VisibleRows(out[..i])|
    {
      var matches := Matches(out[i], searchTerm, selectedDepartment, selectedYear);
      assert out[i].(visible := matches) == target[i];
      ghost var before := out[..i];
      out := out[i := out[i].(visible := matches)];
      assert out[..i + 1] == before + [out[i]];
      if matches {
        matching := matching + 1;
      }
      i := i + 1;
    }
    assert out[..i] == out;
  }

  /** The filter pass keeps every node in its place. */
  lemma RefilteredNodes(rs: seq<Record>, s: string, d: string, y: string)
    ensures SameNodes(rs, Refiltered(rs, s, d, y))
  {
  }

  /** Some filter restricts the rows (applyFilters then reports a filtered count). */
  predicate FiltersActive(searchTerm: string, selectedDepartment: string, selectedYear: string) {
    || Trim(Lower(searchTerm)) != ""
    || Normalize(selectedDepartment, AnyDepartment) != AnyDepartment
    || Normalize(selectedYear, AnyYear) != AnyYear
  }

  lemma LowerAllDepartments()
    ensures Lower(AllDepartments) == "all departments"
  {
    var l := Lower(AllDepartments);
    forall i | 0 <= i < 15 ensures l[i] == "all departments"[i] {
      assert l[i] == LowerChar(AllDepartments[i]);
    }
  }

  lemma LowerAllYears()
    ensures Lower(AllYears) == "all years"
  {
    var l := Lower(AllYears);
    forall i | 0 <= i < 9 ensures l[i] == "all years"[i] {
      assert l[i] == LowerChar(AllYears[i]);
    }
  }

  /** The sentinels have no surrounding white space, so trimming their lower-case forms
      leaves them as they are. */
  lemma TrimDepartment()
    ensures Trim(Lower(AllDepartments)) == AnyDepartment
  {
    LowerAllDepartments();
    SentinelEnds();
    TrimKeeps(AnyDepartment);
  }

  lemma TrimYear()
    ensures Trim(Lower(AllYears)) == AnyYear
  {
    LowerAllYears();
    SentinelEnds();
    TrimKeeps(AnyYear);
  }

  lemma SentinelEnds()
    ensures !IsSpace(AnyDepartment[0]) && !IsSpace(AnyDepartment[|AnyDepartment| - 1])
    ensures !IsSpace(AnyYear[0]) && !IsSpace(AnyYear[|AnyYear| - 1])
  {
    assert AnyDepartment[0] == 'a' && AnyDepartment[14] == 's';
    assert AnyYear[0] == 'a' && AnyYear[8] == 's';
  }

  /** A string that neither starts nor ends with white space is its own trim. */
  lemma TrimKeeps(s: string)
    requires s != [] && !IsSpace(s[0]) && !IsSpace(s[|s| - 1])
    ensures Trim(s) == s
  {
  }

  /** Normalize with the normal fallback computes `(value || fallback).toLowerCase().trim()`
      for both selectors. */
  lemma SentinelsNormalized(value: string)
    ensures Normalize(value, AnyDepartment) == Trim(Lower(if value == "" then AllDepartments else value))
    ensures Normalize(value, AnyYear) == Trim(Lower(if value == "" then AllYears else value))
  {
    TrimDepartment();
    TrimYear();
  }

  /** The initial filter state (empty search, both sentinels) restricts nothing. */
  lemma DefaultFiltersInactive()
    ensures !FiltersActive("", AllDepartments, AllYears)
  {
    TrimDepartment();
    TrimYear();
    assert Lower("") == "";
  }

  /** With no active filter, every row passes. */
  lemma InactiveMatches(r: Record, s: string, d: string, y: string)
    requires !FiltersActive(s, d, y)
    ensures Matches(r, s, d, y)
  {
  }

  /** With no active filter, the filter pass marks every row visible. */
  lemma InactiveFiltersShowAll(rs: seq<Record>, s: string, d: string, y: string)
    requires !FiltersActive(s, d, y)
    ensures VisibleRows(Refiltered(rs, s, d, y)) == Refiltered(rs, s, d, y)
  {
    var f := Refiltered(rs, s, d, y);
    forall i | 0 <= i < |f| ensures f[i].visible {
      InactiveMatches(rs[i], s, d, y);
    }
    AllVisible(f);
  }

  /** The filter pass reads only the cell texts, so running it twice changes nothing more. */
  lemma RefilterIdempotent(rs: seq<Record>, s: string, d: string, y: string)
    ensures Refiltered(Refiltered(rs, s, d, y), s, d, y) == Refiltered(rs, s, d, y)
  {
  }

  lemma LowerUpper(s: string)
    ensures Lower(Upper(s)) == Lower(s)
  {
    assert forall i :: 0 <= i < |s| ==> Lower(Upper(s))[i] == Lower(s)[i];
  }

  /** The filters ignore letter case: upper-casing the search term, either selector, or
      all three yields the same verdict for every row. */
  lemma CaseInsensitive(r: Record, s: string, d: string, y: string)
    ensures Matches(r, Upper(s), d, y) == Matches(r, s, d, y)
    ensures Matches(r, s, Upper(d), y) == Matches(r, s, d, y)
    ensures Matches(r, s, d, Upper(y)) == Matches(r, s, d, y)
    ensures Matches(r, Upper(s), Upper(d), Upper(y)) == Matches(r, s, d, y)
  {
    LowerUpper(s);
    LowerUpper(d);
    LowerUpper(y);
    assert Upper(d) == "" <==> d == "";
    assert Upper(y) == "" <==> y == "";
  }

  /** Searching for any piece of a row's name (in any letter case, with surrounding white
      space) finds the row. */
  lemma SearchFindsName(r: Record, term: string)
    requires Contains(Lower(r.name), Trim(Lower(term)))
    ensures MatchesSearch(r, term)
  {
    var before := r.id + CellGap + r.initials + CellGap;
    var after := CellGap + r.email + CellGap + r.department + CellGap + r.year
                 + CellGap + r.jobTitle + CellGap + r.company;
    assert RowText(r) == before + r.name + after;
    LowerAppend(before + r.name, after);
    LowerAppend(before, r.name);
    ContainsInMiddle(Lower(before), Lower(r.name), Lower(after), Trim(Lower(term)));
  }
}
