# Blogicum: visibility and access rules, in Dafny

Blogicum is a small blog. Users write posts. A post may be filed under a
category and tagged with a location. Other users comment on posts. Listing
pages show posts newest first, and each view decides who may see or change
what. This project models that core:

- the schema: users, categories, locations, posts and comments, with their
  keys, unique columns, foreign keys and `on_delete` rules;
- the visibility filter behind every listing;
- each view's decision, as a function of the requester, the stored data and
  the URL arguments;
- the writes that the form views make.

Everything is stated over a store of finite tables held as sequences.
Timestamps are integers. The current time is a parameter.

Files (all modules are given to Dafny together):

- `query.dfy` (`Query`): the query-set operations the views rely on. These
  are filtering, first-match lookup, ordering by a key (an insertion sort
  proved sorted and a permutation), unique columns, and the next
  auto-increment key.
- `models.dfy` (`Models`): the records (`is_published` defaults to true on
  `Category`, `Location` and `Post`), the store `Db`, and its integrity
  predicate `WF`. `WF` covers unique primary keys, unique slugs and
  usernames, foreign keys that point at stored rows, column lengths and the
  slug alphabet. The module also holds the reverse relations, the
  `comment_count` annotation, the default orderings, and the delete, save
  and insert operations. Each of those operations states in its contract
  which rows it keeps, removes or adds, and a lemma beside it proves that
  `WF` is kept.
- `views.dfy` (`Views`): `Principal` (anonymous or a user), `Response`
  (`Ok`, `NotFound`, `Redirect`, `LoginRequired`, `FormErrors`,
  `ServerError`) and redirect `Target`s. It defines `FilterPosts` and, as
  pure functions, the listings, the post page and the ownership checks.
  Lemmas state what each view guarantees.
- `store.dfy` (`Store`): the form data, and the class `Blog`. `Blog` holds
  the database and the next keys. Its methods are the create, update and
  delete views and the profile edit. The update, delete and profile
  methods decide through the matching `Views` access function; the two
  create methods check login, form and (for comments) the post themselves,
  as their views do. Every method then changes the store through the
  matching `Models` function and states the new store and both key
  counters.

Points the code settles:

- Ordering by `-pub_date` has no tie-break in the code. The model claims
  only a non-increasing `pub_date` and a permutation, and no order among
  posts with equal dates.
- Under the restricted filter, a post with no category is never shown. This
  is the join on `category__is_published`.
- The post edit and delete views run the ownership check before the login
  check. So an anonymous requester is redirected to the post page, and is
  never asked to log in (`PostEditAccessSpec`).
- The comment edit and delete views find the comment by its key and its
  author. The post key in the URL is not compared with the comment's post;
  it is used only for the redirect afterwards.
- The profile edit looks its object up with `.get`, and a missing row there
  is not turned into a not-found page. The model answers `ServerError`.
  `ProfileEditObjectSpec` proves this cannot happen for a stored requester.

## Model

| member | source | states |
|---|---|---|
| `Query.Filter` | blogicum/blog/views.py:25-30 | a filtered query set keeps each record that passes the condition as many times as it occurred, and drops every other record |
| `Query.Find` | blogicum/blog/views.py:119 | a lookup yields a stored record that matches, and yields none exactly when no record matches |
| `Query.SortBy` | blogicum/blog/views.py:31-33 | `order_by` yields a permutation of its input, in ascending order of the key |
| `Models.GetPost` | blogicum/blog/views.py:141 | the lookup of a post by primary key finds a post with that key, and is empty exactly when no post has it |
| `Models.GetUserByName` | blogicum/blog/views.py:67-68 | the lookup by username finds a user with that username, and is empty exactly when no user has it |
| `Models.GetPostUnique` | blogicum/blog/views.py:119 | in a consistent store, the lookup by primary key yields the one post with that key |
| `Models.SlugIdentifiesCategory` | blogicum/blog/models.py:29-35 | two categories with the same slug are the same category, so a slug lookup matches at most one |
| `Models.UsernameIdentifiesUser` | blogicum/blog/views.py:91 | two users with the same username are the same user |
| `Models.PostsBy` | blogicum/blog/models.py:67-71 | `user.posts` holds exactly the stored posts written by that user |
| `Models.PostsIn` | blogicum/blog/models.py:79-85 | `category.posts` holds exactly the stored posts filed under that category |
| `Models.CommentsOn` | blogicum/blog/models.py:118-122 | `post.comments` holds exactly the stored comments on that post |
| `Models.CommentCountIsNumberOfComments` | blogicum/blog/views.py:31-32 | `Count('comments')` equals the number of distinct stored comments whose post is that post |
| `Models.OrderPosts` | blogicum/blog/models.py:92 | the default post order is a permutation with `pub_date` non-increasing |
| `Models.OrderComments` | blogicum/blog/models.py:130 | the default comment order is a permutation with `created_at` non-decreasing |
| `Models.PublishedByDefault` | blogicum/blog/models.py:10-14 | a category, location or post created without the flag is published |
| `Models.DeleteCategoryRule` | blogicum/blog/models.py:79-85 | deleting a category keeps every post: posts that pointed at it get a null category and are otherwise unchanged, other posts are untouched, and the store stays consistent |
| `Models.DeleteLocationRule` | blogicum/blog/models.py:72-78 | deleting a location keeps every post: posts that pointed at it get a null location and are otherwise unchanged, and the store stays consistent |
| `Models.DeletePostRule` | blogicum/blog/models.py:118-122 | deleting a post removes that post and exactly the comments on it; other comments keep their multiplicity, and the store stays consistent |
| `Models.DeleteUserRule` | blogicum/blog/models.py:67-71 | deleting a user removes the user, their posts, their comments and every comment on their posts, and nothing else; the store stays consistent |
| `Models.DeleteCommentRule` | blogicum/blog/views.py:203-206 | deleting a comment removes exactly the comments with that key; no other table changes and the store stays consistent |
| `Models.SavePostRule` | blogicum/blog/views.py:147-148 | saving an edited post with valid foreign keys replaces the row with that key, keeps every other post, and keeps the store consistent |
| `Models.SaveCommentRule` | blogicum/blog/views.py:197-200 | saving an edited comment replaces the row with that key, keeps every other comment, and keeps the store consistent |
| `Models.SaveUserRule` | blogicum/blog/views.py:83-91 | saving a user under a username no other user holds replaces that user's row and keeps usernames unique |
| `Models.InsertPostRule` | blogicum/blog/views.py:102-104 | a new post with a fresh key and stored author, category and location keeps the store consistent |
| `Models.InsertCommentRule` | blogicum/blog/views.py:171-174 | a new comment with a fresh key on a stored post by a stored user keeps the store consistent |
| `Models.CommentCount` | blogicum/blog/views.py:31-32 | the annotation is at most the number of stored comments, and zero exactly when no stored comment is on the post |
| `Models.DeleteCategory` | blogicum/blog/models.py:79-85 | the category with that key is gone and every other category stays; every post stays and none points at the deleted category; users, locations and comments are untouched |
| `Models.DeleteLocation` | blogicum/blog/models.py:72-78 | the location with that key is gone and every other location stays; every post stays and none points at the deleted location; users, categories and comments are untouched |
| `Models.DeletePost` | blogicum/blog/models.py:118-122 | exactly the posts with that key and exactly the comments on them are gone; users, categories and locations are untouched |
| `Models.DeleteUser` | blogicum/blog/models.py:67-71 | exactly the user with that key and exactly the posts they wrote are gone; the remaining comments are stored ones not written by the user; categories and locations are untouched |
| `Models.DeleteComment` | blogicum/blog/views.py:203-206 | exactly the comments with that key are gone; no other table changes |
| `Models.SavePost` | blogicum/blog/views.py:147-148 | the post table keeps its length and the key at every position; every row is the saved post or was stored before; no other table changes |
| `Models.SaveComment` | blogicum/blog/views.py:197-200 | the comment table keeps its length and the key at every position; every row is the saved comment or was stored before; no other table changes |
| `Models.SaveUser` | blogicum/blog/views.py:83-91 | the user table keeps its length and the key at every position; every row is the saved user or was stored before; no other table changes |
| `Models.InsertPost` | blogicum/blog/views.py:102-104 | the post table gains exactly the new post, as its last row, and keeps every old one; no other table changes |
| `Models.InsertComment` | blogicum/blog/views.py:171-174 | the comment table gains exactly the new comment, as its last row, and keeps every old one; no other table changes |
| `Views.CategoryListing` | blogicum/blog/views.py:42-49 | not found iff no published category has the slug; every listed post is stored and visible |
| `Views.ProfileListing` | blogicum/blog/views.py:67-74 | not found iff no user has the username; otherwise the page carries a stored user with that username and lists only stored posts written by them |
| `Views.FindVisible` | blogicum/blog/views.py:121-124 | whatever the restricted lookup finds is a stored, visible post with that key |
| `Views.PostDetail` | blogicum/blog/views.py:118-125 | the answer is the page or not found, and not found for a missing key; a shown post is the stored post with that key, seen by its author or visible, and its comments are exactly the stored comments on it, oldest first |
| `Views.PostEditAccess` | blogicum/blog/views.py:140-144 | not found iff no post has the key; the object handed on is the stored post with that key and the requester wrote it; a redirect goes to that post's page |
| `Views.CommentEditAccess` | blogicum/blog/views.py:185-191 | login is demanded iff the requester is anonymous; a logged-in requester gets a stored comment with that key that they wrote, and not found iff no such comment exists |
| `Views.ProfileEditObject` | blogicum/blog/views.py:88-91 | login is demanded iff the requester is anonymous; otherwise the stored user with the requester's username, and an uncaught error iff there is none |
| `Views.FilterPosts` | blogicum/blog/views.py:19-33 | restricted: a post is listed iff it is in the input and is published, due, and in a published category, so a post without a category is out. Unrestricted: every input post is listed. Either way, listed posts keep their input multiplicity, come newest first, and carry the number of comments on them |
| `Views.IndexListing` | blogicum/blog/views.py:57-58 | the index lists exactly the visible stored posts, newest first |
| `Views.CategoryListingSpec` | blogicum/blog/views.py:42-49 | not found iff no published category has the slug; otherwise exactly the visible posts of that category |
| `Views.ProfileListingSpec` | blogicum/blog/views.py:67-74 | not found iff no user has the username. Otherwise the page shows that user and only their posts: all of them when the requester is that user, only the visible ones for anyone else, including anonymous requesters |
| `Views.ProfileOf` | blogicum/blog/views.py:70-80 | a stored user's profile page carries that user, and the filter is applied iff the requester is not that user |
| `Views.FindVisibleSpec` | blogicum/blog/views.py:121-124 | looking a stored post up by key in the restricted listing finds it iff it is visible |
| `Views.PostDetailOf` | blogicum/blog/views.py:118-132 | for a stored post, the page is shown with the post and its comments iff the requester is the author or the post is visible; otherwise not found |
| `Views.PostDetailSpec` | blogicum/blog/views.py:118-132 | a missing key is not found. The author sees their post whatever its flags and dates. Anyone else sees it only if it is visible, and gets not found if not. The page lists exactly the post's comments, oldest first |
| `Views.PostEditAccessSpec` | blogicum/blog/views.py:140-151 | a missing post is not found. The author gets the post. Anyone else, anonymous included, is redirected to the post page and is never asked to log in |
| `Views.CommentEditAccessSpec` | blogicum/blog/views.py:185-191 | an anonymous requester must log in. Otherwise the requester gets the comment with that key iff they wrote it, and gets not found if it is missing or someone else's |
| `Views.ProfileEditObjectSpec` | blogicum/blog/views.py:88-91 | an anonymous requester must log in; a stored user edits exactly their own record |
| `Views.ScheduledPostHidden` | blogicum/blog/views.py:25-30 | a post dated after now is absent from the index, from every category page, and from a profile page viewed by anyone but its owner |
| `Views.VisibleStaysVisible` | blogicum/blog/views.py:26-29 | a visible post stays visible as time passes |
| `Views.ProfileScenario` | blogicum/blog/views.py:70-74 | of a user's published post A and unpublished post B, an anonymous visitor sees only A and the user sees both |
| `Views.CommentScenario` | blogicum/blog/views.py:185-191 | in one example store, another user's attempt to edit a comment is not found and its author gets the comment (the general fact is `CommentEditAccessSpec`) |
| `Store.NewPost` | blogicum/blog/views.py:102-104 | a created post has the requester as author, the current time as creation time, the key it is given, and the form's flag, date and category |
| `Store.EditedPost` | blogicum/blog/forms.py:6-9 | editing through the post form never changes a post's key, author or creation time |
| `Store.Blog.PostCreate` | blogicum/blog/views.py:97-109 | anonymous: login required, no change. Invalid form: no change. Otherwise exactly one post is appended, written by the requester and created now, and the requester is redirected to their profile |
| `Store.Blog.CommentCreate` | blogicum/blog/views.py:165-178 | anonymous: login required. Invalid form: form errors. A missing post: not found, no change. Otherwise exactly one comment is appended, by the requester on the URL's post, created now, with a redirect to that post |
| `Store.Blog.PostUpdate` | blogicum/blog/views.py:135-148 | a non-author, anonymous included, is redirected to the post page and the store is unchanged. The author's valid form replaces the post's fields, keeping key, author and creation time, and redirects to the post |
| `Store.Blog.PostDelete` | blogicum/blog/views.py:151-162 | a non-author is redirected to the post page and the store is unchanged. The author deletes the post with its comments and is redirected to their profile |
| `Store.Blog.CommentUpdate` | blogicum/blog/views.py:181-200 | someone else's or a missing comment is not found and the store is unchanged. The author's valid form replaces the text only, and redirects to the post named in the URL |
| `Store.Blog.CommentDelete` | blogicum/blog/views.py:181-206 | someone else's or a missing comment is not found and the store is unchanged. The author deletes it and is redirected to the post named in the URL |
| `Store.Blog.ProfileUpdate` | blogicum/blog/views.py:83-94 | anonymous: login required. A valid form replaces the requester's own names, username and email, and redirects to the index |

## Left out

- Pagination: only the page size `PostsPerPage = 10` is kept. Listings are
  whole sequences, and the paginator is not part of this model.
- URL reversing: redirects are `Target` values, not URL strings.
- Templates, context extras and CSRF are not modelled. The context extras
  are the empty comment form on the post page and the bound form on the
  delete page.
- The GET requests of the edit and delete views show the object that the
  access function returns; only the saving POST is modelled as a method.
- `timezone.now()` becomes a `now` parameter. `auto_now_add` sets
  `createdAt` to `now` when a row is inserted.
- The post image (`ImageField` and uploads) is file I/O and is not a field
  of the model.
- `__str__` methods and the `STRING_LENGTH` cut they use only format debug
  text.
- `prefetch_related` and `select_related` change query cost only.
- Form validation keeps only what the store's integrity needs. These are
  the required fields, the title length, stored categories and locations,
  and a username not held by another user. Whitespace stripping, e-mail
  syntax, and the framework user model's username alphabet and length are
  not modelled.
- The framework's user model appears only as the columns the blog reads and
  edits. Passwords, sessions and the login flow become the abstract
  `LoginRequired` answer.
- Creating, editing and deleting categories and locations happens outside
  these views, in the administration site. The deletes are modelled as
  functions with their set-null rules; nothing else about the admin site is.
- Transactions and concurrent requests are not modelled. Each method is one
  atomic change to the store.
- The post form's `is_published` is a checkbox: the model's default only
  pre-checks it, and a submission without the box saves an unpublished
  post. `PostForm` therefore has no default for the flag, and a created
  post carries whatever was submitted (`Store.NewPost`).
- The pages app (static pages and their error handlers) has no logic and is
  not part of this model.
- `Views.FilterPosts`: does not fix the relative order of posts with equal
  `pub_date`, because the code does not.
