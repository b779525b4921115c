/**
 * Blog posts as the admin blog controller manages them: the publish,
 * unpublish and archive transitions with their `published_at` handling, the
 * author stamp on creation, and the list of all tags in use.
 */
module Blogs {
  import opened Common
  import opened Order

  datatype BlogStatus = Draft | Published | Archived

  datatype Blog = Blog(
    id: nat,
    authorId: nat,
    title: string,
    slug: string,
    category: Option<string>,
    tags: Option<seq<string>>,
    status: BlogStatus,
    views: nat,
    publishedAt: Option<Instant>)

  /** Only `status` and `published_at` may differ. */
  predicate SameContent(a: Blog, b: Blog) {
    a.(status := b.status, publishedAt := b.publishedAt) == b
  }

  function PublishPost(b: Blog, now: Instant): (t: Transition<Blog>)
    ensures t.Refused? <==> b.status == Published
    ensures t.Refused? ==> t == Refused(400, "Blog is already published")
    ensures t.Moved? ==> t.next.status == Published && t.next.publishedAt == Some(now) && SameContent(b, t.next)
  {
    if b.status == Published then Refused(400, "Blog is already published")
    else Moved(b.(status := Published, publishedAt := Some(now)))
  }

  /** Back to draft, from published or from archived; the publication stamp is cleared. */
  function UnpublishPost(b: Blog): (t: Transition<Blog>)
    ensures t.Refused? <==> b.status == Draft
    ensures t.Refused? ==> t == Refused(400, "Blog is already a draft")
    ensures t.Moved? ==> t.next.status == Draft && t.next.publishedAt.None? && SameContent(b, t.next)
  {
    if b.status == Draft then Refused(400, "Blog is already a draft")
    else Moved(b.(status := Draft, publishedAt := None))
  }

  /** Archiving leaves the publication stamp as it was. */
  function ArchivePost(b: Blog): (t: Transition<Blog>)
    ensures t.Refused? <==> b.status == Archived
    ensures t.Refused? ==> t == Refused(400, "Blog is already archived")
    ensures t.Moved? ==> t.next.status == Archived && t.next.publishedAt == b.publishedAt && SameContent(b, t.next)
  {
    if b.status == Archived then Refused(400, "Blog is already archived")
    else Moved(b.(status := Archived))
  }

  /** A published post carries a publication stamp. */
  predicate Stamped(b: Blog) {
    b.status == Published ==> b.publishedAt.Some?
  }

  /** The three transitions keep every published post stamped; a draft they produce is unstamped. */
  lemma TransitionsKeepStamped(b: Blog, now: Instant)
    requires Stamped(b)
    ensures PublishPost(b, now).Moved? ==> Stamped(PublishPost(b, now).next)
    ensures UnpublishPost(b).Moved? ==> Stamped(UnpublishPost(b).next)
    ensures ArchivePost(b).Moved? ==> Stamped(ArchivePost(b).next)
  {
  }

  /** Publishing an unstamped draft and unpublishing it again gives back the draft. */
  lemma UnpublishUndoesPublish(b: Blog, now: Instant)
    requires b.status == Draft && b.publishedAt.None?
    ensures PublishPost(b, now).Moved? && UnpublishPost(PublishPost(b, now).next) == Moved(b)
  {
  }

  /** Archiving a published post and then unpublishing it leaves a draft with no stamp. */
  lemma ArchiveThenUnpublish(b: Blog, now: Instant)
    requires b.status == Published
    ensures ArchivePost(b).Moved? && ArchivePost(b).next.publishedAt == b.publishedAt
    ensures UnpublishPost(ArchivePost(b).next).Moved?
    ensures UnpublishPost(ArchivePost(b).next).next == b.(status := Draft, publishedAt := None)
  {
  }

  // ---------------------------------------------------------------------
  // Tags

  /** The tags of a post; a null list has none. */
  function TagList(b: Blog): seq<string> {
    b.tags.GetOr([])
  }

  /** All tags carried by the posts. */
  function TagsOf(blogs: seq<Blog>): set<string> {
    if blogs == [] then {} else TagsOf(blogs[..|blogs| - 1]) + Elems(TagList(blogs[|blogs| - 1]))
  }

  /** A tag is collected iff some post carries it. */
  lemma {:induction false} TagsOfMembership(blogs: seq<Blog>, t: string)
    ensures t in TagsOf(blogs) <==> exists i :: 0 <= i < |blogs| && t in TagList(blogs[i])
  {
    if blogs != [] {
      var init := blogs[..|blogs| - 1];
      TagsOfMembership(init, t);
      assert forall i :: 0 <= i < |init| ==> init[i] == blogs[i];
      if t in Elems(TagList(blogs[|blogs| - 1])) {
        assert t in TagList(blogs[|blogs| - 1]);
      }
      if t in TagList(blogs[|blogs| - 1]) {
        assert t in Elems(TagList(blogs[|blogs| - 1]));
      }
    }
  }

  /**
   * Merges the tag lists of the posts one after another, then removes
   * duplicates and sorts (`array_merge`, `array_unique`, `sort`).
   */
  method CollectTags(blogs: seq<Blog>) returns (tags: seq<string>)
    ensures StrictlySorted(tags)
    ensures Elems(tags) == TagsOf(blogs)
  {
    var all: seq<string> := [];
    var i := 0;
    while i < |blogs|
      invariant 0 <= i <= |blogs|
      invariant Elems(all) == TagsOf(blogs[..i])
    {
      assert blogs[..i + 1][..i] == blogs[..i];
      if blogs[i].tags.Some? {
        all := all + blogs[i].tags.value;
      }
      i := i + 1;
    }
    assert blogs[..|blogs|] == blogs;
    tags := SortedSet(all);
  }

  /** The admin tag list, independent of the order in which the posts are stored. */
  lemma TagListDeterminedByTagSet(a: seq<Blog>, b: seq<Blog>, ta: seq<string>, tb: seq<string>)
    requires StrictlySorted(ta) && Elems(ta) == TagsOf(a)
    requires StrictlySorted(tb) && Elems(tb) == TagsOf(b)
    requires multiset(a) == multiset(b)
    ensures ta == tb
  {
    forall t
      ensures t in TagsOf(a) <==> t in TagsOf(b)
    {
      TagsOfMembership(a, t);
      TagsOfMembership(b, t);
      if t in TagsOf(a) {
        var i :| 0 <= i < |a| && t in TagList(a[i]);
        assert a[i] in multiset(b);
      }
      if t in TagsOf(b) {
        var i :| 0 <= i < |b| && t in TagList(b[i]);
        assert b[i] in multiset(a);
      }
    }
    StrictlySortedUnique(ta, tb);
  }

  // ---------------------------------------------------------------------
  // The table; the post with id `k` is row `k - 1`.

  const NotFound := Fail(404, "Blog not found")

  class BlogTable {
    var rows: seq<Blog>

    /** Each row carries its own id. */
    ghost predicate Valid()
      reads this
    {
      forall k :: 0 <= k < |rows| ==> rows[k].id == k + 1
    }

    constructor ()
      ensures Valid() && rows == []
    {
      rows := [];
    }

    /** store: the author is the signed-in user, whatever the request says. */
    method Store(data: Blog, currentUser: nat) returns (id: nat)
      requires Valid()
      modifies this
      ensures Valid()
      ensures id == |old(rows)| + 1
      ensures rows == old(rows) + [data.(id := id, authorId := currentUser)]
      ensures FindById(rows, id).Some? && FindById(rows, id).value.authorId == currentUser
    {
      id := |rows| + 1;
      var row := data.(id := id);
      row := row.(authorId := currentUser);
      rows := rows + [row];
    }

    method Publish(id: nat, now: Instant) returns (r: Reply)
      requires Valid()
      modifies this
      ensures Valid()
      ensures Applied(old(rows), rows, id, r, NotFound, b => PublishPost(b, now))
    {
      if !(1 <= id <= |rows|) {
        return NotFound;
      }
      var b := rows[id - 1];
      if b.status == Published {
        return Fail(400, "Blog is already published");
      }
      b := b.(status := Published, publishedAt := Some(now));
      rows := rows[id - 1 := b];
      r := Done;
    }

    method Unpublish(id: nat) returns (r: Reply)
      requires Valid()
      modifies this
      ensures Valid()
      ensures Applied(old(rows), rows, id, r, NotFound, b => UnpublishPost(b))
    {
      if !(1 <= id <= |rows|) {
        return NotFound;
      }
      var b := rows[id - 1];
      if b.status == Draft {
        return Fail(400, "Blog is already a draft");
      }
      b := b.(status := Draft, publishedAt := None);
      rows := rows[id - 1 := b];
      r := Done;
    }

    method Archive(id: nat) returns (r: Reply)
      requires Valid()
      modifies this
      ensures Valid()
      ensures Applied(old(rows), rows, id, r, NotFound, b => ArchivePost(b))
    {
      if !(1 <= id <= |rows|) {
        return NotFound;
      }
      var b := rows[id - 1];
      if b.status == Archived {
        return Fail(400, "Blog is already archived");
      }
      b := b.(status := Archived);
      rows := rows[id - 1 := b];
      r := Done;
    }

    /** tags: every tag of every post with a tag list, sorted, without repeats. */
    method Tags() returns (tags: seq<string>)
      ensures StrictlySorted(tags)
      ensures forall t :: t in tags <==> exists i :: 0 <= i < |rows| && t in TagList(rows[i])
    {
      tags := CollectTags(rows);
      forall t
        ensures t in tags <==> exists i :: 0 <= i < |rows| && t in TagList(rows[i])
      {
        TagsOfMembership(rows, t);
        assert t in tags <==> t in Elems(tags);
      }
    }
  }
}
