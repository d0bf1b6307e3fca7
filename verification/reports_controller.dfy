/**
 * `Api::V1::ReportsController#create` and the `find_reportable` dispatch it
 * relies on; the action first runs `authenticate_user!` (401).
 */
module ReportsController {
  import opened Wrappers
  import opened Entities
  import Reports
  import Persistence

  /**
   * `find_reportable`: 'Article', 'Comment' and 'User' look the id up in
   * that table; any other type names nothing.
   */
  function FindReportable(articles: set<nat>, comments: set<nat>, users: set<nat>, kind: string, id: nat)
    : (r: Option<EntityRef>)
    ensures r.Some? <==>
      || (kind == "Article" && id in articles)
      || (kind == "Comment" && id in comments)
      || (kind == "User" && id in users)
    ensures r.Some? ==> r.value.id == id
    ensures r.Some? && kind == "Article" ==> r.value.ArticleRef?
    ensures r.Some? && kind == "Comment" ==> r.value.CommentRef?
    ensures r.Some? && kind == "User" ==> r.value.UserRef?
  {
    if kind == "Article" then (if id in articles then Some(ArticleRef(id)) else None)
    else if kind == "Comment" then (if id in comments then Some(CommentRef(id)) else None)
    else if kind == "User" then (if id in users then Some(UserRef(id)) else None)
    else None
  }

  /** The reportable the request names, looked up in the store. */
  function Reportable(s: Persistence.Store, kind: string, id: nat): Option<EntityRef>
    reads s
  {
    FindReportable(s.articles.rows.Keys, s.comments.rows.Keys, s.users.rows.Keys, kind, id)
  }

  /**
   * `create`: 404 with no report when the reportable is missing; otherwise
   * the report is filed by the current user against it (201), or refused
   * when the reason does not validate (422).
   */
  method Create(s: Persistence.Store, user: Option<nat>, kind: string, reportableId: nat, reason: string, now: Time)
    returns (status: Status, id: Option<nat>)
    requires s.ReportsValid()
    modifies s`reports
    ensures s.ReportsValid()
    ensures status != Created ==> id.None? && unchanged(s)
    ensures user.None? ==> status == Unauthorized
    ensures user.Some? && Reportable(s, kind, reportableId).None? ==> status == NotFound
    ensures user.Some? && Reportable(s, kind, reportableId).Some? ==>
      var r := Reports.NewReport(old(s.reports.next), user.value, Reportable(s, kind, reportableId).value, reason, now);
      if ReportValid(r) then
        && status == Created && id == Some(r.id) && s.reports == old(s.reports).Insert(r)
        && r.reporterId == user.value && r.reportable.id == reportableId && r.status == "pending"
      else
        status == UnprocessableEntity
  {
    if user.None? {
      return Unauthorized, None;
    }
    var target := Reportable(s, kind, reportableId);
    if target.None? {
      return NotFound, None;
    }
    id := s.CreateReport(user.value, target.value, reason, now);
    status := if id.Some? then Created else UnprocessableEntity;
  }
}
