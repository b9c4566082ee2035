/**
 * The public read paths: the visibility rule every listing and lookup goes
 * through, the home feed, the post page and the category page. The clock is
 * the explicit parameter `now`; "not found" is `None`.
 */
module Views {
  import opened Wrappers
  import opened Seqs
  import opened Models

  /** How many posts the home feed shows. */
  const INDEX_SIZE: nat := 5

  /**
   * The post's category joins to a published category. A null reference joins
   * to nothing, so it fails the test instead of passing it vacuously.
   */
  predicate CategoryIsPublished(s: Store, p: Post)
  {
    exists c :: c in s.categories && p.category == Some(c.id) && c.isPublished
  }

  /** Whether an anonymous reader may see `p` at time `now`. */
  predicate Visible(s: Store, p: Post, now: Timestamp)
  {
    p.isPublished && CategoryIsPublished(s, p) && p.pubDate <= now
  }

  /** Every post visible at `now`, in the store's default order. */
  function VisiblePosts(s: Store, now: Timestamp): (r: seq<Post>)
    ensures forall p :: p in r <==>
      && p in s.posts
      && p.isPublished
      && p.category.Some?
      && (exists c :: c in s.categories && c.id == p.category.value && c.isPublished)
      && p.pubDate <= now
    ensures IsSubsequence(r, s.posts)
  {
    Filter(s.posts, (p: Post) => Visible(s, p, now))
  }

  /** The home feed: the first INDEX_SIZE visible posts. */
  function Index(s: Store, now: Timestamp): (r: seq<Post>)
    ensures |r| <= INDEX_SIZE
    ensures |r| == if |VisiblePosts(s, now)| < INDEX_SIZE then |VisiblePosts(s, now)| else INDEX_SIZE
    ensures r <= VisiblePosts(s, now)
    ensures forall p :: p in r ==> p in s.posts && Visible(s, p, now)
  {
    var v := VisiblePosts(s, now);
    if |v| < INDEX_SIZE then v else v[..INDEX_SIZE]
  }

  /** The post page: the post with primary key `id`, looked up among the visible posts only. */
  function PostDetail(s: Store, now: Timestamp, id: nat): (r: Option<Post>)
    ensures r.Some? <==> exists p :: p in s.posts && p.id == id && Visible(s, p, now)
    ensures r.Some? ==> r.value in s.posts && r.value.id == id && Visible(s, r.value, now)
  {
    First(VisiblePosts(s, now), (p: Post) => p.id == id)
  }

  /** What the category page shows: the category and its visible posts. */
  datatype CategoryPage = CategoryPage(category: Category, postList: seq<Post>)

  /** The published category with `slug`, if any. */
  function PublishedCategory(s: Store, slug: string): (r: Option<Category>)
    ensures r.None? <==> !exists c :: c in s.categories && c.slug == slug && c.isPublished
    ensures r.Some? ==> r.value in s.categories && r.value.slug == slug && r.value.isPublished
  {
    First(s.categories, (c: Category) => c.slug == slug && c.isPublished)
  }

  /**
   * The category page. An unpublished category is treated like a missing one;
   * otherwise the visible posts are narrowed to those referencing it.
   */
  function CategoryPosts(s: Store, now: Timestamp, slug: string): (r: Option<CategoryPage>)
    ensures r.None? <==> !exists c :: c in s.categories && c.slug == slug && c.isPublished
    ensures r.Some? ==> r.value.category in s.categories
    ensures r.Some? ==> r.value.category.slug == slug && r.value.category.isPublished
    ensures r.Some? ==> forall p :: p in r.value.postList <==>
      p in VisiblePosts(s, now) && p.category == Some(r.value.category.id)
    ensures r.Some? ==> IsSubsequence(r.value.postList, VisiblePosts(s, now))
  {
    match PublishedCategory(s, slug)
    case None => None
    case Some(c) =>
      Some(CategoryPage(c, Filter(VisiblePosts(s, now), (p: Post) => p.category == Some(c.id))))
  }

  // ---------------------------------------------------------------------------
  // Properties of the visibility rule

  /** A post whose category reference is null is never shown, whatever its own flag. */
  lemma NullCategoryNeverVisible(s: Store, p: Post, now: Timestamp)
    requires p.category.None?
    ensures p !in VisiblePosts(s, now)
    ensures !Visible(s, p, now)
  {
  }

  /** Time only ever adds posts: the feed at `now` is a subsequence of the feed at any later time. */
  lemma VisibilityMonotone(s: Store, now: Timestamp, later: Timestamp)
    requires now <= later
    ensures IsSubsequence(VisiblePosts(s, now), VisiblePosts(s, later))
    ensures forall p :: p in VisiblePosts(s, now) ==> p in VisiblePosts(s, later)
  {
    FilterStrongerIsSubsequence(s.posts, (p: Post) => Visible(s, p, now), (p: Post) => Visible(s, p, later));
  }

  /** The visible posts keep the store's newest-first order. */
  lemma VisiblePostsNewestFirst(s: Store, now: Timestamp)
    requires NewestFirst(s.posts)
    ensures NewestFirst(VisiblePosts(s, now))
  {
    SubsequenceKeepsOrder(VisiblePosts(s, now), s.posts, PubDate);
  }

  /** The home feed is newest first, and no visible post left out of it is newer than one in it. */
  lemma IndexIsNewest(s: Store, now: Timestamp)
    requires NewestFirst(s.posts)
    ensures NewestFirst(Index(s, now))
    ensures forall i, j :: 0 <= i < |Index(s, now)| <= j < |VisiblePosts(s, now)| ==>
      VisiblePosts(s, now)[j].pubDate <= Index(s, now)[i].pubDate
  {
    VisiblePostsNewestFirst(s, now);
    var v, r := VisiblePosts(s, now), Index(s, now);
    forall i, j | 0 <= i < |r| <= j < |v| ensures v[j].pubDate <= r[i].pubDate {
      assert r[i] == v[i];
      assert PubDate(v[j]) <= PubDate(v[i]);
    }
  }

  /** In a valid store the post page shows exactly the visible post with that id. */
  lemma PostDetailFindsVisible(s: Store, now: Timestamp, p: Post)
    requires Valid(s)
    requires p in s.posts && Visible(s, p, now)
    ensures PostDetail(s, now, p.id) == Some(p)
  {
    var q := PostDetail(s, now, p.id).value;
    DistinctIdentifies(s.posts, PostId, p, q);
  }

  /**
   * A missing id and a hidden post give the same answer: the post page is
   * `None` exactly when no stored post with that id is visible.
   */
  lemma PostDetailNotFound(s: Store, now: Timestamp, id: nat)
    ensures PostDetail(s, now, id) == None <==>
      forall p :: p in s.posts && p.id == id ==> !Visible(s, p, now)
    ensures !HasPost(s, id) ==> PostDetail(s, now, id) == None
  {
  }

  /** A scheduled post is not found before its date and found from its date on. */
  lemma ScheduledPostAppears(s: Store, p: Post, now: Timestamp, later: Timestamp)
    requires Valid(s)
    requires p in s.posts && p.isPublished && CategoryIsPublished(s, p)
    requires now < p.pubDate <= later
    ensures PostDetail(s, now, p.id) == None
    ensures PostDetail(s, later, p.id) == Some(p)
  {
    PostDetailFindsVisible(s, later, p);
    forall q | q in s.posts && q.id == p.id ensures !Visible(s, q, now) {
      DistinctIdentifies(s.posts, PostId, p, q);
    }
  }

  /** In a valid store (unique slugs) the category page finds the one published category with that slug. */
  lemma CategoryPostsFindsCategory(s: Store, now: Timestamp, c: Category)
    requires Valid(s)
    requires c in s.categories && c.isPublished
    ensures CategoryPosts(s, now, c.slug).Some?
    ensures CategoryPosts(s, now, c.slug).value.category == c
  {
    var d := CategoryPosts(s, now, c.slug).value.category;
    DistinctIdentifies(s.categories, CategorySlug, c, d);
  }

  /** The category page lists its posts newest first. */
  lemma CategoryPostsNewestFirst(s: Store, now: Timestamp, slug: string)
    requires NewestFirst(s.posts)
    requires CategoryPosts(s, now, slug).Some?
    ensures NewestFirst(CategoryPosts(s, now, slug).value.postList)
  {
    VisiblePostsNewestFirst(s, now);
    SubsequenceKeepsOrder(CategoryPosts(s, now, slug).value.postList, VisiblePosts(s, now), PubDate);
  }

  // ---------------------------------------------------------------------------
  // How store writes affect what readers see

  /** After an author is removed, none of their posts appears in any feed or page. */
  lemma DeletedAuthorNeverShown(s: Store, author: UserId, now: Timestamp, id: nat, slug: string)
    ensures forall p :: p in VisiblePosts(DeleteAuthor(s, author), now) ==> p.author != author
    ensures forall p :: p in Index(DeleteAuthor(s, author), now) ==> p.author != author
    ensures PostDetail(DeleteAuthor(s, author), now, id).Some? ==>
      PostDetail(DeleteAuthor(s, author), now, id).value.author != author
    ensures CategoryPosts(DeleteAuthor(s, author), now, slug).Some? ==>
      forall p :: p in CategoryPosts(DeleteAuthor(s, author), now, slug).value.postList ==> p.author != author
  {
  }

  /** Removing a location changes no post's visibility. */
  lemma DeleteLocationKeepsVisibility(s: Store, id: nat, now: Timestamp)
    ensures forall i :: 0 <= i < |s.posts| ==>
      Visible(DeleteLocation(s, id), DeleteLocation(s, id).posts[i], now) == Visible(s, s.posts[i], now)
  {
    var r := DeleteLocation(s, id);
    forall i | 0 <= i < |s.posts|
      ensures Visible(r, r.posts[i], now) == Visible(s, s.posts[i], now)
    {
      assert r.posts[i].category == s.posts[i].category;
    }
  }

  /** The posts of a removed category survive with a null category, and are then hidden. */
  lemma DeleteCategoryHidesItsPosts(s: Store, id: nat, now: Timestamp)
    ensures forall i :: 0 <= i < |s.posts| && s.posts[i].category == Some(id) ==>
      DeleteCategory(s, id).posts[i].category.None? &&
      !Visible(DeleteCategory(s, id), DeleteCategory(s, id).posts[i], now)
  {
  }

  /** Removing a category changes the visibility of no post outside it. */
  lemma DeleteCategoryKeepsOthers(s: Store, id: nat, now: Timestamp)
    ensures forall i :: 0 <= i < |s.posts| && s.posts[i].category != Some(id) ==>
      Visible(DeleteCategory(s, id), DeleteCategory(s, id).posts[i], now) == Visible(s, s.posts[i], now)
  {
    var r := DeleteCategory(s, id);
    forall i | 0 <= i < |s.posts| && s.posts[i].category != Some(id)
      ensures Visible(r, r.posts[i], now) == Visible(s, s.posts[i], now)
    {
      var p := s.posts[i];
      assert r.posts[i].category == p.category;
      assert r.posts[i].isPublished == p.isPublished && r.posts[i].pubDate == p.pubDate;
      if CategoryIsPublished(s, p) {
        var c :| c in s.categories && p.category == Some(c.id) && c.isPublished;
        assert c in r.categories;
      }
    }
  }

  /** Once a category is unpublished, no post referencing it joins to a published category. */
  lemma UnpublishedCategoryJoinsNothing(s: Store, id: nat, q: Post)
    requires q.category == Some(id)
    ensures !CategoryIsPublished(SetCategoryPublished(s, id, false), q)
  {
    var r := SetCategoryPublished(s, id, false);
    forall c | c in r.categories && q.category == Some(c.id) ensures !c.isPublished {
      var k :| 0 <= k < |r.categories| && r.categories[k] == c;
      assert r.categories[k].id == s.categories[k].id;
    }
  }

  /** Unpublishing a post's category turns its page from found into not found. */
  lemma UnpublishCategoryHidesPost(s: Store, now: Timestamp, p: Post, id: nat)
    requires Valid(s)
    requires PostDetail(s, now, p.id) == Some(p)
    requires p.category == Some(id)
    ensures PostDetail(SetCategoryPublished(s, id, false), now, p.id) == None
  {
    var r := SetCategoryPublished(s, id, false);
    forall q | q in r.posts && q.id == p.id ensures !Visible(r, q, now) {
      DistinctIdentifies(s.posts, PostId, p, q);
      UnpublishedCategoryJoinsNothing(s, id, q);
    }
    PostDetailNotFound(r, now, p.id);
  }
}
