/** The course catalogue: `get_all_courses` pages through `/courses?page=N`
    and collects every page's course list. This module holds the value-level
    rules (what one response contributes, where the walk goes next, and the
    whole walk as a recursive definition); the loop that performs the
    requests is `Downloader.Downloader.GetAllCourses`. */
module Catalogue {
  import opened Text

  /** A catalogue entry, as far as the downloader uses one. */
  datatype Course = Course(slug: string, title: string)

  /** What one page request yields. `Failed` stands for a raised exception
      (connection error, undecodable JSON); `nextPage` is `metadata.next_page`,
      `None` when the key (or the metadata) is missing or null. */
  datatype PageResponse =
    | Failed
    | Http(status: int, courses: seq<Course>, nextPage: Option<int>)

  /** The page to request after `r`, if the walk goes on: only after a 200
      response with a non-empty course list and a truthy `next_page`. */
  function Next(r: PageResponse): (n: Option<int>)
    ensures n.Some? ==> r.Http? && r.status == 200 && r.courses != [] && n.value != 0
    ensures n.Some? ==> r.nextPage == n
  {
    if r.Failed? || r.status != 200 || r.courses == [] then None
    else if r.nextPage.None? || r.nextPage.value == 0 then None
    else r.nextPage
  }

  /** The courses one response adds: the page's list on a 200 response,
      nothing on a failure or another status. */
  function Gained(r: PageResponse): (cs: seq<Course>)
    ensures r.Failed? || (r.Http? && r.status != 200) ==> cs == []
    ensures r.Http? && r.status == 200 ==> cs == r.courses
  {
    if r.Failed? || r.status != 200 then [] else r.courses
  }

  /** The walk from `page` ends within `fuel` requests (the remote could
      hand back a `next_page` that loops forever; the source has no guard). */
  predicate StopsWithin(fetch: int -> PageResponse, page: int, fuel: nat)
    decreases fuel
  {
    fuel > 0 && (Next(fetch(page)).None? || StopsWithin(fetch, Next(fetch(page)).value, fuel - 1))
  }

  /** The pages requested, in order, starting at `page`, with at most `fuel`
      requests. */
  function Visited(fetch: int -> PageResponse, page: int, fuel: nat): (ps: seq<int>)
    ensures fuel > 0 ==> |ps| >= 1 && ps[0] == page
    ensures |ps| <= fuel
    decreases fuel
  {
    if fuel == 0 then []
    else match Next(fetch(page))
      case None => [page]
      case Some(n) => [page] + Visited(fetch, n, fuel - 1)
  }

  /** The courses collected, with at most `fuel` requests. */
  function Collect(fetch: int -> PageResponse, page: int, fuel: nat): seq<Course>
    decreases fuel
  {
    if fuel == 0 then []
    else match Next(fetch(page))
      case None => Gained(fetch(page))
      case Some(n) => Gained(fetch(page)) + Collect(fetch, n, fuel - 1)
  }

  /** The concatenation, in order, of the lists the given pages yield. */
  function Concat(fetch: int -> PageResponse, pages: seq<int>): seq<Course>
  {
    if pages == [] then [] else Gained(fetch(pages[0])) + Concat(fetch, pages[1..])
  }

  /** The catalogue is the concatenation, in request order, of the course
      lists of the pages requested. */
  lemma {:induction false} CollectIsConcat(fetch: int -> PageResponse, page: int, fuel: nat)
    ensures Collect(fetch, page, fuel) == Concat(fetch, Visited(fetch, page, fuel))
    decreases fuel
  {
    if fuel > 0 {
      var v := Visited(fetch, page, fuel);
      match Next(fetch(page))
      case None =>
        assert v == [page];
      case Some(n) =>
        CollectIsConcat(fetch, n, fuel - 1);
        assert v[1..] == Visited(fetch, n, fuel - 1);
    }
  }

  /** Once the walk is known to stop, more fuel changes nothing: the result
      does not depend on the bound used to reason about termination. */
  lemma {:induction false} CollectFuelIndependent(fetch: int -> PageResponse, page: int, fuel: nat, more: nat)
    requires StopsWithin(fetch, page, fuel) && fuel <= more
    ensures Collect(fetch, page, more) == Collect(fetch, page, fuel)
    ensures Visited(fetch, page, more) == Visited(fetch, page, fuel)
    decreases fuel
  {
    match Next(fetch(page))
    case None =>
    case Some(n) =>
      CollectFuelIndependent(fetch, n, fuel - 1, more - 1);
  }

  /** The walk stops at the first request whose response is a failure, not
      a 200, or an empty page, contributing nothing from it. */
  lemma StopsAtFailure(fetch: int -> PageResponse, page: int, fuel: nat)
    requires fuel > 0
    requires Gained(fetch(page)) == []
    ensures Visited(fetch, page, fuel) == [page]
    ensures Collect(fetch, page, fuel) == []
  {
  }

  /** Every course on a page that was requested is in the catalogue. */
  lemma {:induction false} ConcatContains(fetch: int -> PageResponse, pages: seq<int>, k: nat, c: Course)
    requires k < |pages| && c in Gained(fetch(pages[k]))
    ensures c in Concat(fetch, pages)
  {
    if k > 0 {
      ConcatContains(fetch, pages[1..], k - 1, c);
    }
  }
}
