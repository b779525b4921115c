/**
 * The public blog endpoints: the tag and category lists of published posts,
 * the newest posts ("featured"), and the posts related to a given one.
 *
 * `ORDER BY published_at DESC` puts posts without a publication stamp last.
 */
module PublicBlogs {
  import opened Common
  import opened Order
  import opened Blogs

  predicate IsPublished(b: Blog) {
    b.status == Published
  }

  function PublishedPosts(rows: seq<Blog>): (r: seq<Blog>)
    ensures forall b :: b in r <==> b in rows && IsPublished(b)
    ensures forall b :: multiset(r)[b] == if IsPublished(b) then multiset(rows)[b] else 0
  {
    Filter(rows, IsPublished)
  }

  // ---------------------------------------------------------------------
  // tags

  /** tags: the tags of published posts only, sorted, without repeats. */
  method PublishedTags(rows: seq<Blog>) returns (tags: seq<string>)
    ensures StrictlySorted(tags)
    ensures forall t :: t in tags <==> exists i :: 0 <= i < |rows| && IsPublished(rows[i]) && t in TagList(rows[i])
  {
    var published := PublishedPosts(rows);
    tags := CollectTags(published);
    forall t
      ensures t in tags <==> exists i :: 0 <= i < |rows| && IsPublished(rows[i]) && t in TagList(rows[i])
    {
      TagsOfMembership(published, t);
      assert t in tags <==> t in Elems(tags);
      if t in tags {
        var j :| 0 <= j < |published| && t in TagList(published[j]);
        assert published[j] in rows;
      }
      if exists i :: 0 <= i < |rows| && IsPublished(rows[i]) && t in TagList(rows[i]) {
        var i :| 0 <= i < |rows| && IsPublished(rows[i]) && t in TagList(rows[i]);
        assert rows[i] in published;
      }
    }
  }

  // ---------------------------------------------------------------------
  // categories

  /** The non-null categories of published posts, in table order, with repeats. */
  function PublishedCategories(rows: seq<Blog>): (r: seq<string>)
    ensures forall c :: c in r <==> exists i :: 0 <= i < |rows| && IsPublished(rows[i]) && rows[i].category == Some(c)
  {
    if rows == [] then []
    else
      var init, last := rows[..|rows| - 1], rows[|rows| - 1];
      assert forall i :: 0 <= i < |init| ==> init[i] == rows[i];
      PublishedCategories(init) + (if IsPublished(last) && last.category.Some? then [last.category.value] else [])
  }

  /** categories: the distinct categories of published posts, sorted. */
  function Categories(rows: seq<Blog>): (r: seq<string>)
    ensures StrictlySorted(r)
    ensures forall c :: c in r <==> exists i :: 0 <= i < |rows| && IsPublished(rows[i]) && rows[i].category == Some(c)
  {
    var r := SortedSet(PublishedCategories(rows));
    assert forall c :: c in r <==> c in Elems(r);
    r
  }

  // ---------------------------------------------------------------------
  // Newest first

  /** `a` may be listed before `b` when newest come first and unstamped posts last. */
  predicate NewerOrSame(a: Blog, b: Blog) {
    match (a.publishedAt, b.publishedAt)
    case (_, None) => true
    case (None, Some(_)) => false
    case (Some(x), Some(y)) => x >= y
  }

  lemma NewerOrSameIsTotalPreorder()
    ensures TotalPreorder(NewerOrSame)
  {
  }

  /** Any element past the first `n` of a sorted list comes after each of the first `n`. */
  lemma {:induction false} TakeOfSortedIsTop<T(!new)>(s: seq<T>, le: (T, T) -> bool, n: nat, x: T)
    requires SortedBy(s, le)
    requires x in s && x !in Take(s, n)
    ensures forall i :: 0 <= i < |Take(s, n)| ==> le(Take(s, n)[i], x)
  {
    var t := Take(s, n);
    assert forall k :: 0 <= k < |t| ==> t[k] == s[k] && t[k] != x;
    var j :| 0 <= j < |s| && s[j] == x;
    assert j >= |t|;
  }

  /**
   * The `n` newest of `posts`, newest first: as many as there are up to `n`,
   * and every post left out is no newer than any post kept.
   */
  function Newest(posts: seq<Blog>, n: nat): (r: seq<Blog>)
    ensures |r| == if |posts| <= n then |posts| else n
    ensures forall b :: b in r ==> b in posts
    ensures multiset(r) <= multiset(posts)
    ensures SortedBy(r, NewerOrSame)
    ensures forall b :: b in posts && b !in r ==> forall i :: 0 <= i < |r| ==> NewerOrSame(r[i], b)
  {
    NewerOrSameIsTotalPreorder();
    var sorted := SortBy(posts, NewerOrSame);
    var r := Take(sorted, n);
    assert forall b :: b in sorted <==> b in multiset(sorted);
    assert forall b :: b in posts <==> b in multiset(posts);
    forall b | b in posts && b !in r
      ensures forall i :: 0 <= i < |r| ==> NewerOrSame(r[i], b)
    {
      assert b in multiset(posts);
      TakeOfSortedIsTop(sorted, NewerOrSame, n, b);
    }
    assert forall i :: 0 <= i < |r| ==> r[i] == sorted[i];
    assert forall b :: b in r ==> b in sorted;
    assert sorted == r + sorted[|r|..];
    r
  }

  const FeaturedCount := 6

  /**
   * featured: at most six published posts, newest first; every published
   * post left out is no newer than any post shown.
   */
  function Featured(rows: seq<Blog>): (r: seq<Blog>)
    ensures |r| == if |PublishedPosts(rows)| <= FeaturedCount then |PublishedPosts(rows)| else FeaturedCount
    ensures forall b :: b in r ==> b in rows && IsPublished(b)
    ensures multiset(r) <= multiset(PublishedPosts(rows))
    ensures SortedBy(r, NewerOrSame)
    ensures forall b :: b in rows && IsPublished(b) && b !in r ==>
      forall i :: 0 <= i < |r| ==> NewerOrSame(r[i], b)
  {
    Newest(PublishedPosts(rows), FeaturedCount)
  }

  // ---------------------------------------------------------------------
  // related

  /** The first published post with the slug. */
  function PublishedBySlug(rows: seq<Blog>, slug: string): (r: Option<Blog>)
    ensures r.None? <==> forall i :: 0 <= i < |rows| ==> !(IsPublished(rows[i]) && rows[i].slug == slug)
    ensures r.Some? ==> r.value in rows && IsPublished(r.value) && r.value.slug == slug
  {
    if rows == [] then None
    else if IsPublished(rows[0]) && rows[0].slug == slug then Some(rows[0])
    else
      assert forall i :: 0 < i < |rows| ==> rows[i] == rows[1..][i - 1];
      PublishedBySlug(rows[1..], slug)
  }

  /**
   * The related-post condition: the same category (a null category matches
   * null), or, when the post has tags, at least one tag in common.
   */
  predicate SharesTopic(source: Blog, b: Blog) {
    || b.category == source.category
    || (|TagList(source)| > 0 && exists t :: t in TagList(source) && t in TagList(b))
  }

  predicate RelatedCandidate(source: Blog, b: Blog) {
    IsPublished(b) && b.id != source.id && SharesTopic(source, b)
  }

  function Candidates(rows: seq<Blog>, source: Blog): (r: seq<Blog>)
    ensures forall b :: b in r <==> b in rows && RelatedCandidate(source, b)
  {
    Filter(rows, (b: Blog) => RelatedCandidate(source, b))
  }

  const RelatedCount := 3

  datatype RelatedOutcome = RelatedNotFound | RelatedFound(posts: seq<Blog>)

  /**
   * related: 404 unless a published post has the slug; otherwise at most
   * three other published posts sharing its category or a tag, newest first,
   * and every such post left out is no newer than any post shown.
   */
  function Related(rows: seq<Blog>, slug: string): (r: RelatedOutcome)
    ensures r.RelatedNotFound? <==> PublishedBySlug(rows, slug).None?
    ensures r.RelatedFound? ==>
      var source := PublishedBySlug(rows, slug).value;
      && |r.posts| <= RelatedCount
      && |r.posts| == (if |Candidates(rows, source)| <= RelatedCount then |Candidates(rows, source)| else RelatedCount)
      && (forall b :: b in r.posts ==> b in rows && IsPublished(b) && b.id != source.id && SharesTopic(source, b))
      && multiset(r.posts) <= multiset(Candidates(rows, source))
      && SortedBy(r.posts, NewerOrSame)
      && (forall b :: b in rows && RelatedCandidate(source, b) && b !in r.posts ==>
            forall i :: 0 <= i < |r.posts| ==> NewerOrSame(r.posts[i], b))
  {
    match PublishedBySlug(rows, slug)
    case None => RelatedNotFound
    case Some(source) => RelatedFound(Newest(Candidates(rows, source), RelatedCount))
  }

  /** A post is never related to itself. */
  lemma NeverRelatedToItself(rows: seq<Blog>, slug: string)
    requires PublishedBySlug(rows, slug).Some?
    ensures Related(rows, slug).RelatedFound?
    ensures PublishedBySlug(rows, slug).value !in Related(rows, slug).posts
  {
  }
}
