/**
 * Page-size and sort selection shared by the admin list endpoints (and the
 * public blog list).
 *
 * `orderBy($column, $direction)` lower-cases the direction and throws unless it
 * is "asc" or "desc", and the request ends in a 500 (caught by the admin
 * controllers, left to the framework's exception handler by the public blog
 * list). The model reports it as `BadDirection`.
 */
module Listing {
  import opened Common

  datatype Direction = Asc | Desc

  datatype SortSpec = SortSpec(column: string, direction: Direction)

  /** What the query gets: an ORDER BY, none at all, or the direction error. */
  datatype SortChoice = Sorted(spec: SortSpec) | Unsorted | BadDirection

  const MaxPerPage := 100
  const DefaultPerPage := 15

  /** `min($request->input('per_page', 15), 100)`. */
  function PageSize(requested: Option<int>): (n: int)
    ensures n <= MaxPerPage
    ensures n <= requested.GetOr(DefaultPerPage)
    ensures n == MaxPerPage || n == requested.GetOr(DefaultPerPage)
  {
    var asked := requested.GetOr(DefaultPerPage);
    if asked < MaxPerPage then asked else MaxPerPage
  }

  function LowerChar(c: char): char {
    if 'A' <= c <= 'Z' then (c as int + 32) as char else c
  }

  /** ASCII lower-casing, as `strtolower`. */
  function Lower(s: string): (r: string)
    ensures |r| == |s|
    ensures forall i :: 0 <= i < |s| ==> r[i] == LowerChar(s[i])
  {
    if s == [] then [] else [LowerChar(s[0])] + Lower(s[1..])
  }

  /** The direction check inside `orderBy`. */
  function ParseDirection(d: string): (r: Option<Direction>)
    ensures r == Some(Asc) <==> Lower(d) == "asc"
    ensures r == Some(Desc) <==> Lower(d) == "desc"
  {
    var l := Lower(d);
    if l == "asc" then Some(Asc) else if l == "desc" then Some(Desc) else None
  }

  /**
   * The requested column (or the endpoint's default column) is used with the
   * requested direction (or the default direction) when it is on the
   * allow-list; otherwise the endpoint's fallback ordering applies, or none.
   */
  function ChooseSort(allowed: set<string>, defaultColumn: string, defaultDirection: string,
                      fallback: Option<SortSpec>, column: Option<string>, direction: Option<string>): SortChoice
  {
    var c := column.GetOr(defaultColumn);
    if c in allowed then
      match ParseDirection(direction.GetOr(defaultDirection))
      case Some(dir) => Sorted(SortSpec(c, dir))
      case None => BadDirection
    else
      match fallback
      case Some(f) => Sorted(f)
      case None => Unsorted
  }

  // ---------------------------------------------------------------------
  // Admin blog list

  const BlogSortColumns: set<string> := {"title", "status", "views", "published_at", "created_at"}

  function AdminBlogSort(column: Option<string>, direction: Option<string>): (r: SortChoice)
    ensures r.Sorted? ==> r.spec.column in BlogSortColumns
    ensures column.GetOr("created_at") !in BlogSortColumns ==> r == Sorted(SortSpec("created_at", Desc))
    ensures column.GetOr("created_at") in BlogSortColumns ==>
      (r.Sorted? <==> ParseDirection(direction.GetOr("desc")).Some?)
      && (r.Sorted? ==> r.spec == SortSpec(column.GetOr("created_at"), ParseDirection(direction.GetOr("desc")).value))
    ensures !r.Unsorted?
  {
    ChooseSort(BlogSortColumns, "created_at", "desc", Some(SortSpec("created_at", Desc)), column, direction)
  }

  // ---------------------------------------------------------------------
  // Admin doctor list

  const DoctorSortColumns: set<string> := {"name", "specialization", "years_of_experience", "consultation_fee", "created_at"}

  function AdminDoctorSort(column: Option<string>, direction: Option<string>): (r: SortChoice)
    ensures r.Sorted? ==> r.spec.column in DoctorSortColumns
    ensures column.GetOr("created_at") !in DoctorSortColumns ==> r == Sorted(SortSpec("created_at", Desc))
    ensures column.GetOr("created_at") in DoctorSortColumns ==>
      (r.Sorted? <==> ParseDirection(direction.GetOr("desc")).Some?)
      && (r.Sorted? ==> r.spec == SortSpec(column.GetOr("created_at"), ParseDirection(direction.GetOr("desc")).value))
    ensures !r.Unsorted?
  {
    ChooseSort(DoctorSortColumns, "created_at", "desc", Some(SortSpec("created_at", Desc)), column, direction)
  }

  // ---------------------------------------------------------------------
  // Admin service list

  const ServiceSortColumns: set<string> := {"name", "price", "duration", "order", "created_at"}

  function AdminServiceSort(column: Option<string>, direction: Option<string>): (r: SortChoice)
    ensures r.Sorted? ==> r.spec.column in ServiceSortColumns
    ensures column.GetOr("order") !in ServiceSortColumns ==> r == Sorted(SortSpec("order", Asc))
    ensures column.GetOr("order") in ServiceSortColumns ==>
      (r.Sorted? <==> ParseDirection(direction.GetOr("asc")).Some?)
      && (r.Sorted? ==> r.spec == SortSpec(column.GetOr("order"), ParseDirection(direction.GetOr("asc")).value))
    ensures column.None? && direction.None? ==> r == Sorted(SortSpec("order", Asc))
    ensures !r.Unsorted?
  {
    ChooseSort(ServiceSortColumns, "order", "asc", Some(SortSpec("order", Asc)), column, direction)
  }

  // ---------------------------------------------------------------------
  // Public blog list: no fallback ordering

  const PublicBlogSortColumns: set<string> := {"title", "published_at", "views_count", "reading_time"}

  function PublicBlogSort(column: Option<string>, direction: Option<string>): (r: SortChoice)
    ensures r.Unsorted? <==> column.GetOr("published_at") !in PublicBlogSortColumns
    ensures r.Sorted? ==>
      ParseDirection(direction.GetOr("desc")).Some? && r.spec == SortSpec(column.GetOr("published_at"), ParseDirection(direction.GetOr("desc")).value)
    ensures r.BadDirection? <==>
      column.GetOr("published_at") in PublicBlogSortColumns && ParseDirection(direction.GetOr("desc")).None?
  {
    ChooseSort(PublicBlogSortColumns, "published_at", "desc", None, column, direction)
  }

  /**
   * When the requested column is not on the list, the requested direction
   * has no effect on any of the admin endpoints.
   */
  lemma FallbackIgnoresDirection(column: Option<string>, d1: Option<string>, d2: Option<string>)
    ensures column.GetOr("created_at") !in BlogSortColumns ==> AdminBlogSort(column, d1) == AdminBlogSort(column, d2)
    ensures column.GetOr("created_at") !in DoctorSortColumns ==> AdminDoctorSort(column, d1) == AdminDoctorSort(column, d2)
    ensures column.GetOr("order") !in ServiceSortColumns ==> AdminServiceSort(column, d1) == AdminServiceSort(column, d2)
  {
  }
}
