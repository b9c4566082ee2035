# Blogicum: publication visibility and store integrity

A Dafny model of the core of a small Django blog, "blogicum". The blog stores
categories, locations and posts. Anonymous readers see a post only when the
post is published, its category is non-null and published, and its publication
date is not in the future. Three read paths use that rule: the home feed (the
five newest visible posts), the post page (lookup by id among the visible posts
only), and the category page (a published category found by slug, with its
visible posts). The store's schema adds integrity rules:
- category slugs are unique;
- titles and names are at most 256 characters;
- deleting an author deletes their posts;
- deleting a location or a category nulls the references to it;
- posts are listed newest first by default.

Modules:
- `Wrappers` (`wrappers.dfy`): `Option` (a null reference, or not found) and `Result` (the outcome of a store write).
- `Seqs` (`seqs.dfy`): the generic building blocks.
  - `Filter`, `First` and in-order insertion.
  - The order and uniqueness predicates `NonIncreasing` and `Distinct`.
  - The subsequence relation `IsSubsequence`, with lemmas saying that dropping elements keeps an order and keeps keys distinct.
- `Models` (`blogicum/blog/models.py`): the records `Category`, `Location` and `Post`.
  - `is_published` defaults to `true` through a constructor default.
  - The `Store` holds the three tables as sequences. Posts are kept in default order.
  - `Valid` is the schema's integrity invariant.
  - The writes return new stores: add, delete with CASCADE or SET_NULL, and toggling a category's published flag. Each has a frame ("nothing else changes") contract and a lemma that it preserves `Valid`.
- `Views` (`blogicum/blog/views.py`): `Visible` and `VisiblePosts` (the source's `posts()`), `Index`, `PostDetail` and `CategoryPosts`.
  - It also holds lemmas about time, order and uniqueness.
  - It also holds lemmas on how store writes change what readers see.

Modelling choices:
- `now` is an explicit integer parameter, replacing `datetime.now()`. Timestamps are integers.
- A query is a filter over the post table, which is already in `pub_date`-descending order.
- The category join `category__is_published=True` is an inner join. A post passes only if some stored category has the post's category id and is published. A null reference joins to nothing.
- "Not found" (`get_object_or_404`) is `None`.
- Django's `get` would raise on several matches. That cannot happen here, because ids and slugs are unique in a `Valid` store. The model returns the first match, and lemmas prove that it is the only one.
- A new post goes after every stored post with an equal or later `pub_date`. The source does not fix an order among equal dates, and no property here depends on it.
- Write errors are checked in a fixed order: duplicate id, duplicate slug, over-long text, missing reference. The source leaves this order to the database.

## Model

| member | source | states |
|---|---|---|
| Views.VisiblePosts | blogicum/blog/views.py:12-16 | a post is listed iff it is stored and published, its category is non-null and refers to a published category, and its pub_date is at most now; the list is a subsequence of the post table |
| Views.NullCategoryNeverVisible | blogicum/blog/views.py:14 | a post with a null category is never visible, whatever its own published flag |
| Views.VisibilityMonotone | blogicum/blog/views.py:15 | with the store unchanged, the feed at now is a subsequence of the feed at any later time, so a visible post stays visible |
| Views.ScheduledPostAppears | blogicum/blog/views.py:15 | a published post in a published category whose pub_date lies after now is not found at now and is found at any time from its pub_date on |
| Views.VisiblePostsNewestFirst | blogicum/blog/models.py:104 | the visible posts keep the default newest-first order of the post table |
| Views.Index | blogicum/blog/views.py:24 | the home feed has at most 5 posts, exactly min(5, number visible), and is a prefix of the visible posts, so every post in it is visible |
| Views.IndexIsNewest | blogicum/blog/views.py:24 | the home feed is newest first, and no visible post left out of it is newer than a post in it |
| Views.PostDetail | blogicum/blog/views.py:32 | the post page is found iff some stored post with that id is visible; a found post has that id, is stored and is visible |
| Views.PostDetailFindsVisible | blogicum/blog/views.py:32 | in a valid store, a stored visible post's page returns that very post |
| Views.PostDetailNotFound | blogicum/blog/views.py:32 | the page is not found exactly when no stored post with that id is visible, so a nonexistent id and a hidden post give the same result |
| Views.PublishedCategory | blogicum/blog/views.py:40 | the slug lookup fails iff no stored category has that slug and is published; a found category has that slug and is published |
| Views.CategoryPosts | blogicum/blog/views.py:40-41 | the category page is not found iff no published category has the slug; otherwise its posts are exactly the visible posts referencing the found category, as a subsequence of the visible posts |
| Views.CategoryPostsFindsCategory | blogicum/blog/views.py:40 | in a valid store, with slugs unique, the page for a published category's slug shows that category |
| Views.CategoryPostsNewestFirst | blogicum/blog/views.py:41 | the category page lists its posts newest first |
| Views.DeletedAuthorNeverShown | blogicum/blog/models.py:79-81 | after an author is deleted, no feed, post page or category page shows a post by that author |
| Views.DeleteLocationKeepsVisibility | blogicum/blog/models.py:85-89 | deleting a location changes no post's visibility |
| Views.DeleteCategoryHidesItsPosts | blogicum/blog/models.py:93-96 | after a category is deleted, each post that referenced it survives at its position with a null category and is hidden |
| Views.DeleteCategoryKeepsOthers | blogicum/blog/models.py:93-96 | deleting a category changes the visibility of no post outside it |
| Views.UnpublishedCategoryJoinsNothing | blogicum/blog/views.py:14 | once a category is unpublished, no post referencing it passes the category test |
| Views.UnpublishCategoryHidesPost | blogicum/blog/models.py:15-19 | in a valid store, unpublishing a found post's category turns that post's page into not found |
| Models.NewRecordsArePublished | blogicum/blog/models.py:15-16 | a category, location or post created without an explicit flag is published |
| Models.AddCategory | blogicum/blog/models.py:34-41 | the insert succeeds iff the id is new, no stored category has the slug and the title has at most 256 characters; on success the category is appended and nothing else changes; a duplicate-slug rejection means the slug was taken |
| Models.AddCategoryPreservesValid | blogicum/blog/models.py:36-37 | a successful category insert keeps ids and slugs unique and every invariant of the store |
| Models.AddLocation | blogicum/blog/models.py:54 | the insert succeeds iff the id is new and the name has at most 256 characters; on success the location is appended and nothing else changes |
| Models.AddLocationPreservesValid | blogicum/blog/models.py:54 | a successful location insert keeps every invariant of the store |
| Models.AddPost | blogicum/blog/models.py:72-99 | the insert succeeds iff the id is new, the title has at most 256 characters and every non-null reference resolves; on success the post table gains exactly that post, stays newest first, and the other tables are unchanged |
| Models.AddPostPreservesValid | blogicum/blog/models.py:101-104 | a successful post insert keeps post ids unique, the default order and every invariant of the store |
| Models.SetCategoryPublished | blogicum/blog/models.py:15-19 | exactly the categories with that id get the new flag; every other field, category and table is unchanged |
| Models.SetCategoryPublishedPreservesValid | blogicum/blog/models.py:15-19 | toggling a published flag keeps every invariant of the store |
| Models.DeleteAuthor | blogicum/blog/models.py:79-84 | the remaining posts are exactly the stored posts by other authors, in their order; categories and locations are unchanged |
| Models.DeleteAuthorPreservesValid | blogicum/blog/models.py:79-81 | deleting an author keeps every invariant of the store |
| Models.DeleteLocation | blogicum/blog/models.py:85-92 | the location is removed; every post survives at its position; exactly those that referenced it now have a null location; every other field and table is unchanged |
| Models.DeleteLocationPreservesValid | blogicum/blog/models.py:85-89 | deleting a location leaves no dangling location reference and keeps every invariant |
| Models.DeleteCategory | blogicum/blog/models.py:93-99 | the category is removed; every post survives at its position; exactly those that referenced it now have a null category; every other field and table is unchanged |
| Models.DeleteCategoryPreservesValid | blogicum/blog/models.py:93-96 | deleting a category leaves no dangling category reference, keeps slugs unique and keeps every invariant |

## Left out

- Eager loading (`select_related`), QuerySet laziness and database internals: these affect performance only.
- HTTP requests, `render` and templates: only the data each handler passes to its template is modelled.
- The clock `datetime.now()`: it is the parameter `now`.
- `created_at` auto-timestamping: `createdAt` is supplied by the caller.
- The user model and directory (`get_user_model`): an author is an opaque id. A post's author is not checked against any user table.
- `verbose_name`, `help_text` and the Meta plural names: admin metadata with no behaviour.
- SlugField charset validation and its framework-default maximum length of 50: these come from framework validators that the source does not spell out.
- Form-level `blank` rules: `category` is required in forms but nullable in the table, and the model follows the table.
- Auto-assigned primary keys: ids are supplied by the caller and rejected when already in use.
- Record updates other than toggling a category's published flag, and deletion of single posts: no core code performs them.
- Length limits: TEXT_LENGTH is enforced by rejecting an over-long write (`TooLong`). Whether a real database enforces it depends on the database backend.
