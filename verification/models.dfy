/**
 * The blog's entity store: categories, locations and posts, with the integrity
 * rules the schema declares (unique slugs, bounded titles, foreign keys with
 * CASCADE and SET_NULL delete rules, newest-first default order).
 */
module Models {
  import opened Wrappers
  import opened Seqs

  /** Maximum length of every title and name field. */
  const TEXT_LENGTH: nat := 256

  /** An author, owned by the external user directory and known here only by id. */
  type UserId = nat

  /** A moment in time; publication dates and `now` are compared as integers. */
  type Timestamp = int

  /** A category of posts; `slug` names it in URLs. Newly created records are published. */
  datatype Category = Category(
    id: nat,
    title: string,
    description: string,
    slug: string,
    createdAt: Timestamp,
    isPublished: bool := true)

  /** A place a post can be attached to. Newly created records are published. */
  datatype Location = Location(
    id: nat,
    name: string,
    createdAt: Timestamp,
    isPublished: bool := true)

  /** A blog post. `location` and `category` are nullable references by id. */
  datatype Post = Post(
    id: nat,
    title: string,
    text: string,
    pubDate: Timestamp,
    author: UserId,
    location: Option<nat>,
    category: Option<nat>,
    createdAt: Timestamp,
    isPublished: bool := true)

  function CategoryId(c: Category): nat { c.id }
  function CategorySlug(c: Category): string { c.slug }
  function LocationId(l: Location): nat { l.id }
  function PostId(p: Post): nat { p.id }
  function PubDate(p: Post): Timestamp { p.pubDate }

  /** The default order of posts: newest publication date first; equal dates in no particular order. */
  predicate NewestFirst(ps: seq<Post>)
  {
    NonIncreasing(ps, PubDate)
  }

  /** The three tables. Posts are held in their default order. */
  datatype Store = Store(categories: seq<Category>, locations: seq<Location>, posts: seq<Post>)

  const EmptyStore: Store := Store([], [], [])

  predicate HasCategory(s: Store, id: nat)
  {
    exists c :: c in s.categories && c.id == id
  }

  predicate HasLocation(s: Store, id: nat)
  {
    exists l :: l in s.locations && l.id == id
  }

  predicate SlugTaken(s: Store, slug: string)
  {
    exists c :: c in s.categories && c.slug == slug
  }

  predicate HasPost(s: Store, id: nat)
  {
    exists p :: p in s.posts && p.id == id
  }

  /** Every non-null reference of `p` names a stored record. */
  predicate RefersToStored(s: Store, p: Post)
  {
    && (p.category.Some? ==> HasCategory(s, p.category.value))
    && (p.location.Some? ==> HasLocation(s, p.location.value))
  }

  /** The integrity constraints every reachable store satisfies. */
  predicate Valid(s: Store)
  {
    && Distinct(s.categories, CategoryId)
    && Distinct(s.categories, CategorySlug)
    && Distinct(s.locations, LocationId)
    && Distinct(s.posts, PostId)
    && NewestFirst(s.posts)
    && (forall c :: c in s.categories ==> |c.title| <= TEXT_LENGTH)
    && (forall l :: l in s.locations ==> |l.name| <= TEXT_LENGTH)
    && (forall p :: p in s.posts ==> |p.title| <= TEXT_LENGTH && RefersToStored(s, p))
  }

  /** Why the store refused a write. */
  datatype StoreError = DuplicateId | DuplicateSlug | TooLong | MissingReference

  /** Inserts a category; the slug must be unused and the title within bounds. */
  function AddCategory(s: Store, c: Category): (r: Result<Store, StoreError>)
    ensures r.Ok? <==> !HasCategory(s, c.id) && !SlugTaken(s, c.slug) && |c.title| <= TEXT_LENGTH
    ensures r.Ok? ==> r.value.categories == s.categories + [c]
    ensures r.Ok? ==> r.value.locations == s.locations && r.value.posts == s.posts
    ensures r == Err(DuplicateSlug) ==> SlugTaken(s, c.slug)
  {
    if HasCategory(s, c.id) then Err(DuplicateId)
    else if SlugTaken(s, c.slug) then Err(DuplicateSlug)
    else if |c.title| > TEXT_LENGTH then Err(TooLong)
    else Ok(s.(categories := s.categories + [c]))
  }

  /** Inserts a location; the name must be within bounds. */
  function AddLocation(s: Store, l: Location): (r: Result<Store, StoreError>)
    ensures r.Ok? <==> !HasLocation(s, l.id) && |l.name| <= TEXT_LENGTH
    ensures r.Ok? ==> r.value.locations == s.locations + [l]
    ensures r.Ok? ==> r.value.categories == s.categories && r.value.posts == s.posts
  {
    if HasLocation(s, l.id) then Err(DuplicateId)
    else if |l.name| > TEXT_LENGTH then Err(TooLong)
    else Ok(s.(locations := s.locations + [l]))
  }

  /** Inserts a post at its place in the default order; its references must resolve. */
  function AddPost(s: Store, p: Post): (r: Result<Store, StoreError>)
    ensures r.Ok? <==> !HasPost(s, p.id) && |p.title| <= TEXT_LENGTH && RefersToStored(s, p)
    ensures r == Err(MissingReference) ==> !RefersToStored(s, p)
    ensures r.Ok? ==> multiset(r.value.posts) == multiset(s.posts) + multiset{p}
    ensures r.Ok? && NewestFirst(s.posts) ==> NewestFirst(r.value.posts)
    ensures r.Ok? ==> r.value.categories == s.categories && r.value.locations == s.locations
  {
    if HasPost(s, p.id) then Err(DuplicateId)
    else if |p.title| > TEXT_LENGTH then Err(TooLong)
    else if !RefersToStored(s, p) then Err(MissingReference)
    else Ok(s.(posts := InsertInOrder(s.posts, p, PubDate)))
  }

  /** Sets a category's published flag; everything else is kept. */
  function SetCategoryPublished(s: Store, id: nat, published: bool): (r: Store)
    ensures |r.categories| == |s.categories|
    ensures forall i :: 0 <= i < |s.categories| ==>
      r.categories[i].(isPublished := s.categories[i].isPublished) == s.categories[i]
    ensures forall i :: 0 <= i < |s.categories| ==>
      r.categories[i].isPublished == if s.categories[i].id == id then published else s.categories[i].isPublished
    ensures r.locations == s.locations && r.posts == s.posts
  {
    var cs := seq(|s.categories|, i requires 0 <= i < |s.categories| =>
      if s.categories[i].id == id then s.categories[i].(isPublished := published) else s.categories[i]);
    s.(categories := cs)
  }

  /** Removing an author removes their posts (on_delete=CASCADE). */
  function DeleteAuthor(s: Store, author: UserId): (r: Store)
    ensures forall p :: p in r.posts <==> p in s.posts && p.author != author
    ensures IsSubsequence(r.posts, s.posts)
    ensures r.categories == s.categories && r.locations == s.locations
  {
    s.(posts := Filter(s.posts, (p: Post) => p.author != author))
  }

  function ClearLocation(p: Post, id: nat): Post
  {
    if p.location == Some(id) then p.(location := None) else p
  }

  /** Removing a location nulls the references to it; the posts survive (on_delete=SET_NULL). */
  function DeleteLocation(s: Store, id: nat): (r: Store)
    ensures forall l :: l in r.locations <==> l in s.locations && l.id != id
    ensures |r.posts| == |s.posts|
    ensures forall i :: 0 <= i < |s.posts| ==>
      r.posts[i].location == (if s.posts[i].location == Some(id) then None else s.posts[i].location)
    ensures forall i :: 0 <= i < |s.posts| ==>
      r.posts[i].(location := s.posts[i].location) == s.posts[i]
    ensures r.categories == s.categories
  {
    var ps := seq(|s.posts|, i requires 0 <= i < |s.posts| => ClearLocation(s.posts[i], id));
    Store(s.categories, Filter(s.locations, (l: Location) => l.id != id), ps)
  }

  function ClearCategory(p: Post, id: nat): Post
  {
    if p.category == Some(id) then p.(category := None) else p
  }

  /** Removing a category nulls the references to it; the posts survive (on_delete=SET_NULL). */
  function DeleteCategory(s: Store, id: nat): (r: Store)
    ensures forall c :: c in r.categories <==> c in s.categories && c.id != id
    ensures IsSubsequence(r.categories, s.categories)
    ensures |r.posts| == |s.posts|
    ensures forall i :: 0 <= i < |s.posts| ==>
      r.posts[i].category == (if s.posts[i].category == Some(id) then None else s.posts[i].category)
    ensures forall i :: 0 <= i < |s.posts| ==>
      r.posts[i].(category := s.posts[i].category) == s.posts[i]
    ensures r.locations == s.locations
  {
    var ps := seq(|s.posts|, i requires 0 <= i < |s.posts| => ClearCategory(s.posts[i], id));
    Store(Filter(s.categories, (c: Category) => c.id != id), s.locations, ps)
  }

  /** Records created without an explicit flag are published. */
  lemma NewRecordsArePublished(id: nat, title: string, text: string, slug: string, pubDate: Timestamp,
                               author: UserId, location: Option<nat>, category: Option<nat>, createdAt: Timestamp)
    ensures Category(id, title, text, slug, createdAt).isPublished
    ensures Location(id, title, createdAt).isPublished
    ensures Post(id, title, text, pubDate, author, location, category, createdAt).isPublished
  {
  }

  lemma EmptyStoreValid()
    ensures Valid(EmptyStore)
  {
  }

  /** Pointwise rewriting that keeps ids and dates keeps the post table's invariants. */
  lemma SameKeysKeepOrderAndIds(ps: seq<Post>, qs: seq<Post>)
    requires |ps| == |qs|
    requires forall i :: 0 <= i < |ps| ==> qs[i].id == ps[i].id && qs[i].pubDate == ps[i].pubDate
    requires Distinct(ps, PostId) && NewestFirst(ps)
    ensures Distinct(qs, PostId) && NewestFirst(qs)
  {
  }

  lemma AddCategoryPreservesValid(s: Store, c: Category)
    requires Valid(s)
    requires AddCategory(s, c).Ok?
    ensures Valid(AddCategory(s, c).value)
  {
    var r := AddCategory(s, c).value;
    DistinctAppend(s.categories, c, CategoryId);
    DistinctAppend(s.categories, c, CategorySlug);
    forall p | p in r.posts ensures RefersToStored(r, p) {
      assert RefersToStored(s, p);
      if p.category.Some? {
        var d :| d in s.categories && d.id == p.category.value;
        assert d in r.categories;
      }
    }
  }

  lemma AddLocationPreservesValid(s: Store, l: Location)
    requires Valid(s)
    requires AddLocation(s, l).Ok?
    ensures Valid(AddLocation(s, l).value)
  {
    var r := AddLocation(s, l).value;
    DistinctAppend(s.locations, l, LocationId);
    forall p | p in r.posts ensures RefersToStored(r, p) {
      assert RefersToStored(s, p);
      if p.location.Some? {
        var m :| m in s.locations && m.id == p.location.value;
        assert m in r.locations;
      }
    }
  }

  lemma AddPostPreservesValid(s: Store, p: Post)
    requires Valid(s)
    requires AddPost(s, p).Ok?
    ensures Valid(AddPost(s, p).value)
  {
    var r := AddPost(s, p).value;
    var k :| 0 <= k <= |s.posts| && r.posts == s.posts[..k] + [p] + s.posts[k..];
    DistinctInsert(s.posts, p, PostId, k);
    forall q | q in r.posts ensures |q.title| <= TEXT_LENGTH && RefersToStored(r, q) {
      assert q in multiset(r.posts);
      if q != p {
        assert q in s.posts;
      }
    }
  }

  lemma SetCategoryPublishedPreservesValid(s: Store, id: nat, published: bool)
    requires Valid(s)
    ensures Valid(SetCategoryPublished(s, id, published))
  {
    var r := SetCategoryPublished(s, id, published);
    assert forall i :: 0 <= i < |s.categories| ==>
      r.categories[i].id == s.categories[i].id && r.categories[i].slug == s.categories[i].slug
        && r.categories[i].title == s.categories[i].title;
    forall p | p in r.posts ensures RefersToStored(r, p) {
      assert RefersToStored(s, p);
      if p.category.Some? {
        var i :| 0 <= i < |s.categories| && s.categories[i].id == p.category.value;
        assert r.categories[i] in r.categories;
      }
    }
  }

  lemma DeleteAuthorPreservesValid(s: Store, author: UserId)
    requires Valid(s)
    ensures Valid(DeleteAuthor(s, author))
  {
    var r := DeleteAuthor(s, author);
    SubsequenceKeepsDistinct(r.posts, s.posts, PostId);
    SubsequenceKeepsOrder(r.posts, s.posts, PubDate);
  }

  lemma DeleteLocationPreservesValid(s: Store, id: nat)
    requires Valid(s)
    ensures Valid(DeleteLocation(s, id))
  {
    var r := DeleteLocation(s, id);
    SubsequenceKeepsDistinct(r.locations, s.locations, LocationId);
    SameKeysKeepOrderAndIds(s.posts, r.posts);
    forall q | q in r.posts ensures |q.title| <= TEXT_LENGTH && RefersToStored(r, q) {
      var i :| 0 <= i < |r.posts| && r.posts[i] == q;
      var p := s.posts[i];
      assert p in s.posts && RefersToStored(s, p);
      if q.location.Some? {
        var m :| m in s.locations && m.id == p.location.value;
        assert m in r.locations;
      }
    }
  }

  lemma DeleteCategoryPreservesValid(s: Store, id: nat)
    requires Valid(s)
    ensures Valid(DeleteCategory(s, id))
  {
    var r := DeleteCategory(s, id);
    SubsequenceKeepsDistinct(r.categories, s.categories, CategoryId);
    SubsequenceKeepsDistinct(r.categories, s.categories, CategorySlug);
    SameKeysKeepOrderAndIds(s.posts, r.posts);
    forall q | q in r.posts ensures |q.title| <= TEXT_LENGTH && RefersToStored(r, q) {
      var i :| 0 <= i < |r.posts| && r.posts[i] == q;
      var p := s.posts[i];
      assert p in s.posts && RefersToStored(s, p);
      if q.category.Some? {
        var c :| c in s.categories && c.id == p.category.value;
        assert c in r.categories;
      }
    }
  }
}
