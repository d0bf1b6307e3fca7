/** `ReportsController#index`. */
module ReportQueries {
  import opened Wrappers
  import opened Tables
  import opened Ordering
  import opened Text
  import opened Entities

  predicate InTable(reports: map<nat, Report>, r: Report) {
    exists k :: k in reports && reports[k] == r
  }

  /** `scope :recent`. */
  function NewestFirst(): (Report, Report) -> bool {
    Descending((r: Report) => r.createdAt)
  }

  /** `where(status: params[:status]) if params[:status].present?`. */
  predicate StatusMatches(status: Option<string>, r: Report) {
    status.None? || IsBlank(status.value) || r.status == status.value
  }

  /** All reports, or those with the given status when one is present; newest first. */
  function Index(reports: map<nat, Report>, status: Option<string>): (r: seq<Report>)
    ensures forall x :: x in r <==> InTable(reports, x) && StatusMatches(status, x)
    ensures Sorted(r, NewestFirst())
    ensures status.Some? && !IsBlank(status.value) ==> forall x :: x in r ==> x.status == status.value
    ensures status.None? ==> |r| == |reports|
    ensures forall x :: multiset(r)[x] == if StatusMatches(status, x) then Occurrences(reports, x) else 0
  {
    DescendingIsPreorder((x: Report) => x.createdAt);
    var p := (x: Report) => StatusMatches(status, x);
    var r := SelectFromTable(reports, p, NewestFirst());
    assert status.None? ==> |r| == |reports| by {
      if status.None? { FilterAll(Rows(reports), p); }
    }
    r
  }
}
