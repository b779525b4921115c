/** Small value types shared by every part of the model. */
module Common {

  /** A nullable column or an optional request field. */
  datatype Option<+T> = None | Some(value: T) {
    function GetOr(default: T): T {
      match this
      case Some(v) => v
      case None => default
    }
  }

  /**
   * Whether a request carried a key at all (`$request->has(...)`). A key that is
   * present may still hold null, so an admin note that is supplied is an
   * `Option<string>`.
   */
  datatype Supplied<+T> = Absent | Given(value: T)

  /** Overwrite `current` with the supplied value, if any. */
  function ApplySupplied<T>(current: T, given: Supplied<T>): (r: T)
    ensures given.Absent? ==> r == current
    ensures given.Given? ==> r == given.value
  {
    match given
    case Absent => current
    case Given(v) => v
  }

  /**
   * The JSON envelope of an action, reduced to what decides it: success, or
   * an error status code with its message.
   */
  datatype Reply = Done | Fail(status: int, message: string)

  /** Points in time (`now()`) are abstract, totally ordered instants. */
  type Instant = int

  /** Calendar days, numbered; `after:today` is `date > today`. */
  type Date = int

  /**
   * `find($id)` on a table stored as a sequence whose row `k - 1` has id `k`:
   * found exactly for the ids of existing rows.
   */
  function FindById<T>(rows: seq<T>, id: nat): (r: Option<T>)
    ensures r.Some? <==> 1 <= id <= |rows|
    ensures r.Some? ==> r.value == rows[id - 1]
  {
    if 1 <= id <= |rows| then Some(rows[id - 1]) else None
  }

  /** The result of an admin action on one row: refused with an error, or moved to a new row. */
  datatype Transition<+R> = Refused(status: int, message: string) | Moved(next: R)

  /**
   * The table after an action with transition `step` on row `id`: `notFound`
   * for an unknown id, the refusal with the table unchanged, or the moved row
   * written back in place.
   */
  ghost predicate Applied<R>(before: seq<R>, after: seq<R>, id: nat, r: Reply, notFound: Reply,
                             step: R -> Transition<R>) {
    match FindById(before, id)
    case None => r == notFound && after == before
    case Some(row) =>
      match step(row)
      case Refused(status, message) => r == Fail(status, message) && after == before
      case Moved(next) => r == Done && after == before[id - 1 := next]
  }

  /** Characters PHP's `trim` removes. */
  predicate IsTrimmed(c: char) {
    c == ' ' || c == '\t' || c == '\n' || c == '\r' || c == '\0' || c == '\U{B}'
  }

  /** Laravel's `required` on a string: something is left after trimming. */
  predicate Filled(s: string) {
    exists i :: 0 <= i < |s| && !IsTrimmed(s[i])
  }

  /** Counts how many elements of `s` satisfy `p`. */
  function CountWhere<T(!new)>(s: seq<T>, p: T -> bool): (n: nat)
    ensures n <= |s|
  {
    if s == [] then 0 else CountWhere(s[..|s| - 1], p) + (if p(s[|s| - 1]) then 1 else 0)
  }

  /** The elements of `s` that satisfy `p`, in order. */
  function Filter<T(!new)>(s: seq<T>, p: T -> bool): (r: seq<T>)
    ensures |r| <= |s|
    ensures forall x :: x in r <==> x in s && p(x)
    ensures forall x :: multiset(r)[x] == if p(x) then multiset(s)[x] else 0
    ensures multiset(r) <= multiset(s)
  {
    if s == [] then []
    else
      var init := Filter(s[..|s| - 1], p);
      assert s == s[..|s| - 1] + [s[|s| - 1]];
      if p(s[|s| - 1]) then init + [s[|s| - 1]] else init
  }

  /** The first `n` elements of `s`, or all of them (`->limit(n)`). */
  function Take<T>(s: seq<T>, n: nat): (r: seq<T>)
    ensures |r| == if |s| <= n then |s| else n
    ensures r <= s
  {
    if |s| <= n then s else s[..n]
  }
}
