/** The blog's schema: users, categories, locations, posts and comments as
    records with integer keys, the store that holds them, the constraints the
    database keeps (primary keys, unique columns, foreign keys, column
    lengths), the default orderings and the `on_delete` rules. */
module Models {
  import opened Query

  type UserId = nat
  type CategoryId = nat
  type LocationId = nat
  type PostId = nat
  type CommentId = nat

  /** An instant of the blog's clock; larger is later. */
  type Time = int

  /** `max_length` of the title and name columns. */
  const TitleMaxLength := 256
  /** `max_length` of `Category.slug`. */
  const SlugMaxLength := 128

  /** The account records the blog refers to (the framework's user model). */
  datatype User = User(id: UserId, username: string, firstName: string, lastName: string, email: string)

  /** `is_published` defaults to true, as in the shared abstract base model. */
  datatype Category = Category(
    id: CategoryId, title: string, description: string, slug: string,
    createdAt: Time, isPublished: bool := true)

  datatype Location = Location(id: LocationId, name: string, createdAt: Time, isPublished: bool := true)

  /** `author` is required; `location` and `category` are nullable. */
  datatype Post = Post(
    id: PostId, title: string, text: string, pubDate: Time,
    author: UserId, location: Option<LocationId>, category: Option<CategoryId>,
    createdAt: Time, isPublished: bool := true)

  datatype Comment = Comment(id: CommentId, text: string, author: UserId, post: PostId, createdAt: Time)

  /** The database: one table per model, each in primary-key (insertion) order. */
  datatype Db = Db(
    users: seq<User>, categories: seq<Category>, locations: seq<Location>,
    posts: seq<Post>, comments: seq<Comment>)

  // Column projections used as keys of the unique constraints and orderings.
  function UserKey(u: User): UserId { u.id }
  function UsernameKey(u: User): string { u.username }
  function CategoryKey(c: Category): CategoryId { c.id }
  function SlugKey(c: Category): string { c.slug }
  function LocationKey(l: Location): LocationId { l.id }
  function PostKey(p: Post): PostId { p.id }
  function CommentKey(c: Comment): CommentId { c.id }

  predicate HasUser(db: Db, id: UserId) { exists u :: u in db.users && u.id == id }
  predicate HasCategory(db: Db, id: CategoryId) { exists c :: c in db.categories && c.id == id }
  predicate HasLocation(db: Db, id: LocationId) { exists l :: l in db.locations && l.id == id }
  predicate HasPost(db: Db, id: PostId) { exists p :: p in db.posts && p.id == id }

  /** What `SlugField` admits: a non-empty run of Latin letters, digits, hyphens and underscores. */
  predicate IsSlug(s: string) {
    |s| > 0 &&
    forall ch :: ch in s ==> 'a' <= ch <= 'z' || 'A' <= ch <= 'Z' || '0' <= ch <= '9' || ch == '-' || ch == '_'
  }

  /** A post's foreign keys point at stored rows (a null one points nowhere). */
  predicate PostRefsOk(db: Db, p: Post) {
    && HasUser(db, p.author)
    && (p.category.Some? ==> HasCategory(db, p.category.value))
    && (p.location.Some? ==> HasLocation(db, p.location.value))
  }

  predicate CommentRefsOk(db: Db, c: Comment) {
    HasUser(db, c.author) && HasPost(db, c.post)
  }

  ghost predicate KeysUnique(db: Db) {
    && UniqueBy(db.users, UserKey) && UniqueBy(db.users, UsernameKey)
    && UniqueBy(db.categories, CategoryKey) && UniqueBy(db.categories, SlugKey)
    && UniqueBy(db.locations, LocationKey)
    && UniqueBy(db.posts, PostKey)
    && UniqueBy(db.comments, CommentKey)
  }

  ghost predicate ColumnsFit(db: Db) {
    && (forall c :: c in db.categories ==> |c.title| <= TitleMaxLength && |c.slug| <= SlugMaxLength && IsSlug(c.slug))
    && (forall l :: l in db.locations ==> |l.name| <= TitleMaxLength)
    && (forall p :: p in db.posts ==> |p.title| <= TitleMaxLength)
  }

  /** The integrity the database maintains. */
  ghost predicate WF(db: Db) {
    && KeysUnique(db)
    && ColumnsFit(db)
    && (forall p :: p in db.posts ==> PostRefsOk(db, p))
    && (forall c :: c in db.comments ==> CommentRefsOk(db, c))
  }

  // ----- Lookups by primary key and by unique column -----

  function GetPost(db: Db, id: PostId): (r: Option<Post>)
    ensures r.Some? ==> r.value in db.posts && r.value.id == id
    ensures r.None? <==> !HasPost(db, id)
  {
    Find(db.posts, (p: Post) => p.id == id)
  }

  function GetUserByName(db: Db, username: string): (r: Option<User>)
    ensures r.Some? ==> r.value in db.users && r.value.username == username
    ensures r.None? <==> forall u :: u in db.users ==> u.username != username
  {
    Find(db.users, (u: User) => u.username == username)
  }

  /** Two rows of a table with a unique key that agree on the key are the same row. */
  lemma KeyDetermines<T, K>(s: seq<T>, key: T -> K, a: T, b: T)
    requires UniqueBy(s, key) && a in s && b in s && key(a) == key(b)
    ensures a == b
  {
    var i :| 0 <= i < |s| && s[i] == a;
    var j :| 0 <= j < |s| && s[j] == b;
    if i < j || j < i { assert key(s[i]) != key(s[j]); }
  }

  /** A primary-key lookup yields the one stored post with that key. */
  lemma GetPostUnique(db: Db, p: Post)
    requires WF(db) && p in db.posts
    ensures GetPost(db, p.id) == Some(p)
  {
    var r := GetPost(db, p.id);
    assert r.Some?;
    KeyDetermines(db.posts, PostKey, r.value, p);
  }

  /** No two categories share a slug, so a slug lookup matches at most one category. */
  lemma SlugIdentifiesCategory(db: Db, a: Category, b: Category)
    requires WF(db) && a in db.categories && b in db.categories && a.slug == b.slug
    ensures a == b
  {
    KeyDetermines(db.categories, SlugKey, a, b);
  }

  /** No two users share a username. */
  lemma UsernameIdentifiesUser(db: Db, a: User, b: User)
    requires WF(db) && a in db.users && b in db.users && a.username == b.username
    ensures a == b
  {
    KeyDetermines(db.users, UsernameKey, a, b);
  }

  // ----- Reverse relations (`default_related_name`) -----

  /** `user.posts`. */
  function PostsBy(db: Db, author: UserId): (r: seq<Post>)
    ensures forall p :: p in r <==> p in db.posts && p.author == author
  {
    Filter(db.posts, (p: Post) => p.author == author)
  }

  /** `category.posts`. */
  function PostsIn(db: Db, category: CategoryId): (r: seq<Post>)
    ensures forall p :: p in r <==> p in db.posts && p.category == Some(category)
  {
    Filter(db.posts, (p: Post) => p.category == Some(category))
  }

  /** `post.comments`, in table order. */
  function CommentsOn(db: Db, post: PostId): (r: seq<Comment>)
    ensures forall c :: c in r <==> c in db.comments && c.post == post
  {
    Filter(db.comments, (c: Comment) => c.post == post)
  }

  /** `Count('comments')` for one post. */
  function CommentCount(db: Db, post: PostId): (n: nat)
    ensures n <= |db.comments|
    ensures n == 0 <==> forall c :: c in db.comments ==> c.post != post
  {
    |CommentsOn(db, post)|
  }

  /** The comment count is the number of distinct stored comments whose post is `post`. */
  lemma CommentCountIsNumberOfComments(db: Db, post: PostId)
    requires UniqueBy(db.comments, CommentKey)
    ensures CommentCount(db, post) == |set c | c in db.comments && c.post == post|
  {
    var keep := (c: Comment) => c.post == post;
    var on := Filter(db.comments, keep);
    FilterUnique(db.comments, keep, CommentKey);
    UniqueDistinct(on, CommentKey);
    DistinctCardinality(on);
    assert forall c :: c in on <==> c in db.comments && c.post == post;
    assert (set c | c in on) == (set c | c in db.comments && c.post == post);
  }

  // ----- Default orderings (`Meta.ordering`) -----

  /** `Post.Meta.ordering = ('-pub_date',)`: ascending in the negated date. */
  function NewestFirstKey(p: Post): int { -p.pubDate }

  /** `Comment.Meta.ordering = ('created_at',)`. */
  function OldestFirstKey(c: Comment): int { c.createdAt }

  ghost predicate NewestFirst(posts: seq<Post>) {
    forall i, j :: 0 <= i < j < |posts| ==> posts[i].pubDate >= posts[j].pubDate
  }

  ghost predicate OldestFirst(comments: seq<Comment>) {
    forall i, j :: 0 <= i < j < |comments| ==> comments[i].createdAt <= comments[j].createdAt
  }

  function OrderPosts(posts: seq<Post>): (r: seq<Post>)
    ensures NewestFirst(r)
    ensures multiset(r) == multiset(posts)
    ensures forall p :: p in r <==> p in posts
  {
    var r := SortBy(posts, NewestFirstKey);
    assert forall i, j :: 0 <= i < j < |r| ==> NewestFirstKey(r[i]) <= NewestFirstKey(r[j]);
    r
  }

  function OrderComments(comments: seq<Comment>): (r: seq<Comment>)
    ensures OldestFirst(r)
    ensures multiset(r) == multiset(comments)
    ensures forall c :: c in r <==> c in comments
  {
    var r := SortBy(comments, OldestFirstKey);
    assert forall i, j :: 0 <= i < j < |r| ==> OldestFirstKey(r[i]) <= OldestFirstKey(r[j]);
    r
  }

  // ----- on_delete rules -----

  /** `Post.category` is SET_NULL: the posts of the category stay, with no category. */
  function DeleteCategory(db: Db, id: CategoryId): (r: Db)
    ensures forall c :: c in r.categories <==> c in db.categories && c.id != id
    ensures |r.posts| == |db.posts| && forall p :: p in r.posts ==> p.category != Some(id)
    ensures r.users == db.users && r.locations == db.locations && r.comments == db.comments
  {
    db.(categories := Filter(db.categories, (c: Category) => c.id != id),
        posts := seq(|db.posts|, i requires 0 <= i < |db.posts| =>
                   if db.posts[i].category == Some(id) then db.posts[i].(category := None) else db.posts[i]))
  }

  /** `Post.location` is SET_NULL. */
  function DeleteLocation(db: Db, id: LocationId): (r: Db)
    ensures forall l :: l in r.locations <==> l in db.locations && l.id != id
    ensures |r.posts| == |db.posts| && forall p :: p in r.posts ==> p.location != Some(id)
    ensures r.users == db.users && r.categories == db.categories && r.comments == db.comments
  {
    db.(locations := Filter(db.locations, (l: Location) => l.id != id),
        posts := seq(|db.posts|, i requires 0 <= i < |db.posts| =>
                   if db.posts[i].location == Some(id) then db.posts[i].(location := None) else db.posts[i]))
  }

  /** `Comment.post` is CASCADE: the post goes with its comments. */
  function DeletePost(db: Db, id: PostId): (r: Db)
    ensures forall p :: p in r.posts <==> p in db.posts && p.id != id
    ensures forall c :: c in r.comments <==> c in db.comments && c.post != id
    ensures r.users == db.users && r.categories == db.categories && r.locations == db.locations
  {
    db.(posts := Filter(db.posts, (p: Post) => p.id != id),
        comments := Filter(db.comments, (c: Comment) => c.post != id))
  }

  /** The post a comment belongs to is written by `author`. */
  predicate OnPostBy(db: Db, c: Comment, author: UserId) {
    exists p :: p in db.posts && p.id == c.post && p.author == author
  }

  /** `Post.author` and `Comment.author` are CASCADE, and so is `Comment.post`
      for the posts that go: the user's posts, the user's comments and every
      comment on the user's posts are removed. */
  function DeleteUser(db: Db, id: UserId): (r: Db)
    ensures forall u :: u in r.users <==> u in db.users && u.id != id
    ensures forall p :: p in r.posts <==> p in db.posts && p.author != id
    ensures forall c :: c in r.comments ==> c in db.comments && c.author != id
    ensures r.categories == db.categories && r.locations == db.locations
  {
    db.(users := Filter(db.users, (u: User) => u.id != id),
        posts := Filter(db.posts, (p: Post) => p.author != id),
        comments := Filter(db.comments, (c: Comment) => c.author != id && !OnPostBy(db, c, id)))
  }

  /** Set-null keeps every post, changes only the category column of the
      posts that pointed at the category, and the store stays consistent. */
  lemma DeleteCategoryRule(db: Db, id: CategoryId)
    requires WF(db)
    ensures var r := DeleteCategory(db, id);
      && WF(r)
      && |r.posts| == |db.posts|
      && (forall i :: 0 <= i < |r.posts| ==>
            r.posts[i] == db.posts[i].(category := if db.posts[i].category == Some(id) then None else db.posts[i].category))
      && (forall c :: c in r.categories <==> c in db.categories && c.id != id)
      && r.users == db.users && r.locations == db.locations && r.comments == db.comments
  {
    DeleteCategoryKeepsStore(db, id);
  }

  /** The consistency half of `DeleteCategoryRule`. */
  lemma DeleteCategoryKeepsStore(db: Db, id: CategoryId)
    requires WF(db)
    ensures WF(DeleteCategory(db, id))
  {
    var r := DeleteCategory(db, id);
    var keep := (c: Category) => c.id != id;
    FilterUnique(db.categories, keep, CategoryKey);
    FilterUnique(db.categories, keep, SlugKey);
    SameKeysSamePosts(db, r);
    assert KeysUnique(r);
    forall q | q in r.posts ensures |q.title| <= TitleMaxLength {
      var i :| 0 <= i < |r.posts| && r.posts[i] == q;
      assert db.posts[i] in db.posts;
    }
    assert ColumnsFit(r);
    DeleteCategoryKeepsRefs(db, id);
  }

  /** After set-null every post still points at stored rows only. */
  lemma DeleteCategoryKeepsRefs(db: Db, id: CategoryId)
    requires WF(db)
    ensures var r := DeleteCategory(db, id); forall p :: p in r.posts ==> PostRefsOk(r, p)
  {
    var r := DeleteCategory(db, id);
    forall p | p in r.posts ensures PostRefsOk(r, p) {
      var i :| 0 <= i < |r.posts| && r.posts[i] == p;
      assert PostRefsOk(db, db.posts[i]);
      if p.category.Some? {
        var c :| c in db.categories && c.id == p.category.value;
        assert c in r.categories;
      }
    }
  }

  /** Set-null of `Post.location`: every post stays, only the location column
      of the posts that pointed at the location changes. */
  lemma DeleteLocationRule(db: Db, id: LocationId)
    requires WF(db)
    ensures var r := DeleteLocation(db, id);
      && WF(r)
      && |r.posts| == |db.posts|
      && (forall i :: 0 <= i < |r.posts| ==>
            r.posts[i] == db.posts[i].(location := if db.posts[i].location == Some(id) then None else db.posts[i].location))
      && (forall l :: l in r.locations <==> l in db.locations && l.id != id)
      && r.users == db.users && r.categories == db.categories && r.comments == db.comments
  {
    DeleteLocationKeepsStore(db, id);
  }

  /** The consistency half of `DeleteLocationRule`. */
  lemma DeleteLocationKeepsStore(db: Db, id: LocationId)
    requires WF(db)
    ensures WF(DeleteLocation(db, id))
  {
    var r := DeleteLocation(db, id);
    FilterUnique(db.locations, (l: Location) => l.id != id, LocationKey);
    SameKeysSamePosts(db, r);
    assert KeysUnique(r);
    forall q | q in r.posts ensures |q.title| <= TitleMaxLength {
      var i :| 0 <= i < |r.posts| && r.posts[i] == q;
      assert db.posts[i] in db.posts;
    }
    assert ColumnsFit(r);
    DeleteLocationKeepsRefs(db, id);
  }

  /** After set-null every post still points at stored rows only. */
  lemma DeleteLocationKeepsRefs(db: Db, id: LocationId)
    requires WF(db)
    ensures var r := DeleteLocation(db, id); forall p :: p in r.posts ==> PostRefsOk(r, p)
  {
    var r := DeleteLocation(db, id);
    forall p | p in r.posts ensures PostRefsOk(r, p) {
      var i :| 0 <= i < |r.posts| && r.posts[i] == p;
      assert PostRefsOk(db, db.posts[i]);
      if p.location.Some? {
        var l :| l in db.locations && l.id == p.location.value;
        assert l in r.locations;
      }
    }
  }

  /** Two post tables with the same keys row by row: the keys stay unique and
      the same keys are present, so comments keep their post. */
  lemma SameKeysSamePosts(db: Db, r: Db)
    requires WF(db) && r.users == db.users && r.comments == db.comments
    requires |r.posts| == |db.posts|
    requires forall i :: 0 <= i < |r.posts| ==> r.posts[i].id == db.posts[i].id
    ensures UniqueBy(r.posts, PostKey)
    ensures forall c :: c in r.comments ==> CommentRefsOk(r, c)
  {
    assert forall i :: 0 <= i < |r.posts| ==> PostKey(r.posts[i]) == PostKey(db.posts[i]);
    forall c | c in r.comments ensures CommentRefsOk(r, c) {
      assert CommentRefsOk(db, c);
      var p :| p in db.posts && p.id == c.post;
      var i :| 0 <= i < |db.posts| && db.posts[i] == p;
      assert r.posts[i] in r.posts;
    }
  }

  /** Deleting a post removes exactly the comments on it; every other row stays. */
  lemma DeletePostRule(db: Db, id: PostId)
    requires WF(db)
    ensures var r := DeletePost(db, id);
      && WF(r)
      && (forall p :: p in r.posts <==> p in db.posts && p.id != id)
      && (forall c :: c in r.comments <==> c in db.comments && c.post != id)
      && (forall c :: multiset(r.comments)[c] == if c.post == id then 0 else multiset(db.comments)[c])
      && r.users == db.users && r.categories == db.categories && r.locations == db.locations
  {
    DeletePostKeepsStore(db, id);
  }

  /** The consistency half of `DeletePostRule`. */
  lemma DeletePostKeepsStore(db: Db, id: PostId)
    requires WF(db)
    ensures WF(DeletePost(db, id))
  {
    var r := DeletePost(db, id);
    FilterUnique(db.posts, (p: Post) => p.id != id, PostKey);
    FilterUnique(db.comments, (c: Comment) => c.post != id, CommentKey);
    assert KeysUnique(r);
    assert ColumnsFit(r);
    forall p | p in r.posts ensures PostRefsOk(r, p) {
      assert PostRefsOk(db, p);
    }
    forall c | c in r.comments ensures CommentRefsOk(r, c) {
      assert CommentRefsOk(db, c);
      var p :| p in db.posts && p.id == c.post;
      assert p in r.posts;
    }
  }

  /** Deleting a user removes the user, every post they wrote, every comment
      they wrote and every comment on their posts; nothing else is removed. */
  lemma DeleteUserRule(db: Db, id: UserId)
    requires WF(db)
    ensures var r := DeleteUser(db, id);
      && WF(r)
      && (forall u :: u in r.users <==> u in db.users && u.id != id)
      && (forall p :: p in r.posts <==> p in db.posts && p.author != id)
      && (forall c :: c in r.comments <==> c in db.comments && c.author != id && !OnPostBy(db, c, id))
      && r.categories == db.categories && r.locations == db.locations
  {
    var r := DeleteUser(db, id);
    var keepUser := (u: User) => u.id != id;
    FilterUnique(db.users, keepUser, UserKey);
    FilterUnique(db.users, keepUser, UsernameKey);
    FilterUnique(db.posts, (p: Post) => p.author != id, PostKey);
    FilterUnique(db.comments, (c: Comment) => c.author != id && !OnPostBy(db, c, id), CommentKey);
    forall p | p in r.posts ensures PostRefsOk(r, p) {
      assert PostRefsOk(db, p);
      var u :| u in db.users && u.id == p.author;
      assert u in r.users;
    }
    forall c | c in r.comments ensures CommentRefsOk(r, c) {
      assert CommentRefsOk(db, c);
      var u :| u in db.users && u.id == c.author;
      assert u in r.users;
      var p :| p in db.posts && p.id == c.post;
      assert p in r.posts;
    }
  }

  /** Deleting a comment removes that row only; nothing refers to comments. */
  function DeleteComment(db: Db, id: CommentId): (r: Db)
    ensures forall c :: c in r.comments <==> c in db.comments && c.id != id
    ensures r.users == db.users && r.categories == db.categories
    ensures r.locations == db.locations && r.posts == db.posts
  {
    db.(comments := Filter(db.comments, (c: Comment) => c.id != id))
  }

  lemma DeleteCommentRule(db: Db, id: CommentId)
    requires WF(db)
    ensures var r := DeleteComment(db, id);
      && WF(r)
      && (forall c :: c in r.comments <==> c in db.comments && c.id != id)
      && r.users == db.users && r.categories == db.categories
      && r.locations == db.locations && r.posts == db.posts
  {
    var r := DeleteComment(db, id);
    FilterUnique(db.comments, (c: Comment) => c.id != id, CommentKey);
    assert KeysUnique(r);
    assert ColumnsFit(r);
    forall p | p in r.posts ensures PostRefsOk(r, p) {
      assert PostRefsOk(db, p);
    }
    forall c | c in r.comments ensures CommentRefsOk(r, c) {
      assert CommentRefsOk(db, c);
    }
  }

  // ----- Saving an existing row (an UPDATE by primary key) -----

  function SavePost(db: Db, p: Post): (r: Db)
    ensures |r.posts| == |db.posts|
    ensures forall i :: 0 <= i < |r.posts| ==> r.posts[i].id == db.posts[i].id
    ensures forall q :: q in r.posts ==> q == p || q in db.posts
    ensures r.users == db.users && r.categories == db.categories
    ensures r.locations == db.locations && r.comments == db.comments
  {
    db.(posts := seq(|db.posts|, i requires 0 <= i < |db.posts| => if db.posts[i].id == p.id then p else db.posts[i]))
  }

  function SaveComment(db: Db, c: Comment): (r: Db)
    ensures |r.comments| == |db.comments|
    ensures forall i :: 0 <= i < |r.comments| ==> r.comments[i].id == db.comments[i].id
    ensures forall d :: d in r.comments ==> d == c || d in db.comments
    ensures r.users == db.users && r.categories == db.categories
    ensures r.locations == db.locations && r.posts == db.posts
  {
    db.(comments := seq(|db.comments|, i requires 0 <= i < |db.comments| =>
                      if db.comments[i].id == c.id then c else db.comments[i]))
  }

  function SaveUser(db: Db, u: User): (r: Db)
    ensures |r.users| == |db.users|
    ensures forall i :: 0 <= i < |r.users| ==> r.users[i].id == db.users[i].id
    ensures forall v :: v in r.users ==> v == u || v in db.users
    ensures r.categories == db.categories && r.locations == db.locations
    ensures r.posts == db.posts && r.comments == db.comments
  {
    db.(users := seq(|db.users|, i requires 0 <= i < |db.users| => if db.users[i].id == u.id then u else db.users[i]))
  }

  /** Updating a stored post to a row whose foreign keys and columns are valid
      replaces that row and keeps the store consistent. */
  lemma SavePostRule(db: Db, p: Post)
    requires WF(db) && HasPost(db, p.id) && PostRefsOk(db, p) && |p.title| <= TitleMaxLength
    ensures var r := SavePost(db, p);
      && WF(r)
      && (forall q :: q in r.posts <==> q == p || (q in db.posts && q.id != p.id))
      && r.users == db.users && r.categories == db.categories
      && r.locations == db.locations && r.comments == db.comments
  {
    SavePostKeepsStore(db, p);
    SavePostReplaces(db, p);
  }

  /** The consistency half of `SavePostRule`. */
  lemma SavePostKeepsStore(db: Db, p: Post)
    requires WF(db) && PostRefsOk(db, p) && |p.title| <= TitleMaxLength
    ensures WF(SavePost(db, p))
  {
    var r := SavePost(db, p);
    SameKeysSamePosts(db, r);
    assert KeysUnique(r);
    forall q | q in r.posts ensures PostRefsOk(r, q) && |q.title| <= TitleMaxLength {
      var i :| 0 <= i < |r.posts| && r.posts[i] == q;
      assert PostRefsOk(db, db.posts[i]);
    }
    assert ColumnsFit(r);
  }

  /** The row-level half of `SavePostRule`. */
  lemma SavePostReplaces(db: Db, p: Post)
    requires HasPost(db, p.id)
    ensures forall q :: q in SavePost(db, p).posts <==> q == p || (q in db.posts && q.id != p.id)
  {
    var r := SavePost(db, p);
    var q0 :| q0 in db.posts && q0.id == p.id;
    var i0 :| 0 <= i0 < |db.posts| && db.posts[i0] == q0;
    assert r.posts[i0] == p;
    forall q | q in db.posts && q.id != p.id ensures q in r.posts {
      var i :| 0 <= i < |db.posts| && db.posts[i] == q;
      assert r.posts[i] == q;
    }
  }

  /** Updating a stored comment whose foreign keys are valid replaces that row. */
  lemma SaveCommentRule(db: Db, c: Comment)
    requires WF(db) && CommentRefsOk(db, c)
    requires exists d :: d in db.comments && d.id == c.id
    ensures var r := SaveComment(db, c);
      && WF(r)
      && (forall d :: d in r.comments <==> d == c || (d in db.comments && d.id != c.id))
      && r.users == db.users && r.categories == db.categories
      && r.locations == db.locations && r.posts == db.posts
  {
    SaveCommentKeepsStore(db, c);
    SaveCommentReplaces(db, c);
  }

  /** The consistency half of `SaveCommentRule`. */
  lemma SaveCommentKeepsStore(db: Db, c: Comment)
    requires WF(db) && CommentRefsOk(db, c)
    ensures WF(SaveComment(db, c))
  {
    var r := SaveComment(db, c);
    assert forall i :: 0 <= i < |r.comments| ==> CommentKey(r.comments[i]) == CommentKey(db.comments[i]);
    assert KeysUnique(r);
    assert ColumnsFit(r);
    forall p | p in r.posts ensures PostRefsOk(r, p) {
      assert PostRefsOk(db, p);
    }
    forall d | d in r.comments ensures CommentRefsOk(r, d) {
      var i :| 0 <= i < |r.comments| && r.comments[i] == d;
      assert CommentRefsOk(db, db.comments[i]);
    }
  }

  /** The row-level half of `SaveCommentRule`. */
  lemma SaveCommentReplaces(db: Db, c: Comment)
    requires exists d :: d in db.comments && d.id == c.id
    ensures forall d :: d in SaveComment(db, c).comments <==> d == c || (d in db.comments && d.id != c.id)
  {
    var r := SaveComment(db, c);
    var d0 :| d0 in db.comments && d0.id == c.id;
    var i0 :| 0 <= i0 < |db.comments| && db.comments[i0] == d0;
    assert r.comments[i0] == c;
    forall d | d in db.comments && d.id != c.id ensures d in r.comments {
      var i :| 0 <= i < |db.comments| && db.comments[i] == d;
      assert r.comments[i] == d;
    }
  }

  /** Updating a stored user to a username no other user holds keeps usernames unique. */
  lemma SaveUserRule(db: Db, u: User)
    requires WF(db) && HasUser(db, u.id)
    requires forall v :: v in db.users && v.id != u.id ==> v.username != u.username
    ensures var r := SaveUser(db, u);
      && WF(r)
      && (forall v :: v in r.users <==> v == u || (v in db.users && v.id != u.id))
      && r.categories == db.categories && r.locations == db.locations
      && r.posts == db.posts && r.comments == db.comments
  {
    SaveUserKeepsStore(db, u);
    SaveUserReplaces(db, u);
  }

  /** The consistency half of `SaveUserRule`. */
  lemma SaveUserKeepsStore(db: Db, u: User)
    requires WF(db)
    requires forall v :: v in db.users && v.id != u.id ==> v.username != u.username
    ensures WF(SaveUser(db, u))
  {
    var r := SaveUser(db, u);
    assert forall i :: 0 <= i < |r.users| ==> UserKey(r.users[i]) == UserKey(db.users[i]);
    forall i, j | 0 <= i < j < |r.users| ensures UsernameKey(r.users[i]) != UsernameKey(r.users[j]) {
      assert r.users[i] in db.users || r.users[i] == u;
      if db.users[i].id == u.id {
        assert db.users[j].id != u.id;
      } else if db.users[j].id == u.id {
        assert db.users[i].id != u.id;
      }
    }
    assert KeysUnique(r);
    assert ColumnsFit(r);
    forall x | x in db.users ensures HasUser(r, x.id) {
      var i :| 0 <= i < |db.users| && db.users[i] == x;
      assert r.users[i].id == x.id;
    }
    forall p | p in r.posts ensures PostRefsOk(r, p) {
      assert PostRefsOk(db, p);
    }
    forall c | c in r.comments ensures CommentRefsOk(r, c) {
      assert CommentRefsOk(db, c);
    }
  }

  /** The row-level half of `SaveUserRule`. */
  lemma SaveUserReplaces(db: Db, u: User)
    requires HasUser(db, u.id)
    ensures forall v :: v in SaveUser(db, u).users <==> v == u || (v in db.users && v.id != u.id)
  {
    var r := SaveUser(db, u);
    var v0 :| v0 in db.users && v0.id == u.id;
    var i0 :| 0 <= i0 < |db.users| && db.users[i0] == v0;
    assert r.users[i0] == u;
    forall v | v in db.users && v.id != u.id ensures v in r.users {
      var i :| 0 <= i < |db.users| && db.users[i] == v;
      assert r.users[i] == v;
    }
  }

  // ----- Inserting a new row -----

  function InsertPost(db: Db, p: Post): (r: Db)
    ensures forall q :: q in r.posts <==> q in db.posts || q == p
    ensures |r.posts| == |db.posts| + 1 && r.posts[|db.posts|] == p
    ensures r.users == db.users && r.categories == db.categories
    ensures r.locations == db.locations && r.comments == db.comments
  {
    db.(posts := db.posts + [p])
  }

  function InsertComment(db: Db, c: Comment): (r: Db)
    ensures forall d :: d in r.comments <==> d in db.comments || d == c
    ensures |r.comments| == |db.comments| + 1 && r.comments[|db.comments|] == c
    ensures r.users == db.users && r.categories == db.categories
    ensures r.locations == db.locations && r.posts == db.posts
  {
    db.(comments := db.comments + [c])
  }

  /** A new post with a fresh key and valid foreign keys keeps the store consistent. */
  lemma InsertPostRule(db: Db, p: Post)
    requires WF(db) && !HasPost(db, p.id) && PostRefsOk(db, p) && |p.title| <= TitleMaxLength
    ensures WF(InsertPost(db, p))
  {
    var r := InsertPost(db, p);
    forall i, j | 0 <= i < j < |r.posts| ensures PostKey(r.posts[i]) != PostKey(r.posts[j]) {
      if j == |db.posts| { assert r.posts[i] in db.posts; }
    }
    forall q | q in r.posts ensures PostRefsOk(r, q) {
      if q != p { assert PostRefsOk(db, q); }
    }
    forall c | c in r.comments ensures CommentRefsOk(r, c) {
      assert CommentRefsOk(db, c);
      var q :| q in db.posts && q.id == c.post;
      assert q in r.posts;
    }
  }

  /** A new comment with a fresh key on a stored post by a stored user keeps the store consistent. */
  lemma InsertCommentRule(db: Db, c: Comment)
    requires WF(db) && CommentRefsOk(db, c)
    requires forall d :: d in db.comments ==> d.id != c.id
    ensures WF(InsertComment(db, c))
  {
    var r := InsertComment(db, c);
    forall i, j | 0 <= i < j < |r.comments| ensures CommentKey(r.comments[i]) != CommentKey(r.comments[j]) {
      if j == |db.comments| { assert r.comments[i] in db.comments; }
    }
    forall p | p in r.posts ensures PostRefsOk(r, p) {
      assert PostRefsOk(db, p);
    }
  }

  /** Categories, locations and posts are published unless created otherwise. */
  lemma PublishedByDefault(id: nat, title: string, text: string, slug: string, pubDate: Time, author: UserId, now: Time)
    ensures Category(id, title, text, slug, now).isPublished
    ensures Location(id, title, now).isPublished
    ensures Post(id, title, text, pubDate, author, None, None, now).isPublished
  {
  }
}
