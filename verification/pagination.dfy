/**
 * Page sizes.  `Paginatable#per_page` clamps the requested size to at
 * most 100; several actions instead hand `params[:per_page] || default`
 * to the paginator unclamped.  The parameter arrives already converted
 * by `to_i`.
 */
module Pagination {
  import opened Wrappers

  const DefaultPerPage: int := 20
  const MaxPerPage: int := 100

  /** `[params[:per_page]&.to_i || 20, 100].min`. */
  function PerPage(param: Option<int>): (n: int)
    ensures n <= MaxPerPage
    ensures param.None? ==> n == DefaultPerPage
    ensures param.Some? ==> n == if param.value <= MaxPerPage then param.value else MaxPerPage
  {
    var requested := param.GetOr(DefaultPerPage);
    if requested < MaxPerPage then requested else MaxPerPage
  }

  /** `params[:per_page] || default`: the size several actions use, with no clamp. */
  function RequestedPerPage(param: Option<int>, default: int): (n: int)
    ensures param.None? ==> n == default
    ensures param.Some? ==> n == param.value
  {
    param.GetOr(default)
  }

  /** No lower bound: zero and negative sizes pass through unchanged. */
  lemma PerPageNoLowerBound(n: int)
    requires n <= 0
    ensures PerPage(Some(n)) == n
  {
  }

  /** The clamp and the unclamped default agree up to 100 and part above it. */
  lemma ClampOnlyAboveMax(n: int)
    ensures PerPage(Some(n)) == RequestedPerPage(Some(n), DefaultPerPage) <==> n <= MaxPerPage
  {
  }
}
