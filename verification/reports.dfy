/**
 * The `Report` model: a new report starts 'pending'; `resolve!` and
 * `dismiss!` close it with the acting user and the time, from whatever
 * status it had.
 */
module Reports {
  import opened Wrappers
  import opened Tables
  import opened Entities

  /** A new report as `save` stores it: `set_defaults` makes the status 'pending'. */
  function NewReport(id: nat, reporter: nat, reportable: EntityRef, reason: string, now: Time): (r: Report)
    ensures r.id == id && r.reporterId == reporter && r.reportable == reportable && r.reason == reason
    ensures r.status == "pending" && r.resolverId.None? && r.resolvedAt.None? && r.createdAt == now
    ensures ReportValid(r) <==> PresentWithLength(reason, 10, 500)
  {
    Report(id, reporter, reportable, reason, "pending", None, None, now)
  }

  /** The row `update!(status:, resolver:, resolved_at:)` writes. */
  function Close(r: Report, status: string, resolver: nat, now: Time): (r': Report)
    requires status in ReportStatuses
    ensures r'.status == status && r'.resolverId == Some(resolver) && r'.resolvedAt == Some(now)
    ensures r'.id == r.id && r'.reporterId == r.reporterId && r'.reportable == r.reportable
    ensures r'.reason == r.reason && r'.createdAt == r.createdAt
    ensures ReportValid(r) ==> ReportValid(r')
  {
    r.(status := status, resolverId := Some(resolver), resolvedAt := Some(now))
  }

  /** `resolve!`. */
  function Resolve(r: Report, resolver: nat, now: Time): (r': Report)
    ensures r'.status == "resolved" && r'.resolverId == Some(resolver) && r'.resolvedAt == Some(now)
  {
    Close(r, "resolved", resolver, now)
  }

  /** `dismiss!`. */
  function Dismiss(r: Report, resolver: nat, now: Time): (r': Report)
    ensures r'.status == "dismissed" && r'.resolverId == Some(resolver) && r'.resolvedAt == Some(now)
  {
    Close(r, "dismissed", resolver, now)
  }

  /**
   * Neither transition looks at the status it starts from: closing a report
   * twice leaves what the second call wrote, whichever the first was.
   */
  lemma LastCloseWins(r: Report, first: string, second: string, u1: nat, u2: nat, t1: Time, t2: Time)
    requires first in ReportStatuses && second in ReportStatuses
    ensures Close(Close(r, first, u1, t1), second, u2, t2) == Close(r, second, u2, t2)
  {
  }

  /** A dismissed report can still be resolved, and a resolved one dismissed. */
  lemma NoGuardOnPriorStatus(r: Report, u: nat, t: Time)
    ensures Resolve(Dismiss(r, u, t), u, t).status == "resolved"
    ensures Dismiss(Resolve(r, u, t), u, t).status == "dismissed"
    ensures ReportValid(r) ==> ReportValid(Resolve(r, u, t)) && ReportValid(Dismiss(r, u, t))
  {
  }

  /** Every report validates and is stored under its id. */
  ghost predicate ReportsValid(t: Table<Report>) {
    KeyedBy(t, (r: Report) => r.id) && forall k :: k in t.rows ==> ReportValid(t.rows[k])
  }

  /** Closing a stored report keeps the table valid, from any status. */
  lemma CloseKeeps(t: Table<Report>, id: nat, status: string, resolver: nat, now: Time)
    requires ReportsValid(t) && id in t.rows && status in ReportStatuses
    ensures ReportsValid(t.Put(id, Close(t.rows[id], status, resolver, now)))
  {
  }

  /** Inserting a new report whose reason validates keeps the table valid. */
  lemma InsertKeeps(t: Table<Report>, reporter: nat, reportable: EntityRef, reason: string, now: Time)
    requires ReportsValid(t) && PresentWithLength(reason, 10, 500)
    ensures ReportsValid(t.Insert(NewReport(t.next, reporter, reportable, reason, now)))
  {
  }
}
