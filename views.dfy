/** What each view of the blog answers for a requester, a store and the
    arguments of its URL: the post visibility filter, the listings, the post
    page, and the ownership checks in front of editing and deleting. Each
    decision is a function; the changes the form views make are in Store. */
module Views {
  import opened Query
  import opened Models

  /** The requester: nobody logged in, or a user of the blog. */
  datatype Principal = Anonymous | Member(user: User)

  /** `request.user == <user>`, compared by primary key; an anonymous
      requester equals no user. */
  predicate IsUser(req: Principal, id: UserId) {
    req.Member? && req.user.id == id
  }

  /** A logged-in requester is a stored user. */
  ghost predicate Authentic(db: Db, req: Principal) {
    req.Member? ==> req.user in db.users
  }

  /** The named routes a view redirects to. */
  datatype Target = ToIndex | ToProfile(username: string) | ToPost(post: PostId)

  /** How a view answers. */
  datatype Response<T> =
    | Ok(value: T)          // the page is shown with this object
    | NotFound              // Http404
    | Redirect(to: Target)
    | LoginRequired         // turned away towards the login page
    | FormErrors            // the form is shown again with its errors; nothing is saved
    | ServerError           // an uncaught DoesNotExist

  /** Page size of every listing; the paginator itself is not modelled. */
  const PostsPerPage := 10

  /** A listed post with its `comment_count` annotation. */
  datatype PostRow = PostRow(post: Post, commentCount: nat)

  function RowPosts(rows: seq<PostRow>): (posts: seq<Post>)
    ensures |posts| == |rows|
    ensures forall i :: 0 <= i < |rows| ==> posts[i] == rows[i].post
  {
    seq(|rows|, i requires 0 <= i < |rows| => rows[i].post)
  }

  /** The restricted filter: published, due, and in a published category
      (a post without a category is never visible). */
  predicate Visible(db: Db, p: Post, now: Time) {
    && p.pubDate <= now
    && p.isPublished
    && p.category.Some?
    && exists c :: c in db.categories && c.id == p.category.value && c.isPublished
  }

  /** The posts `filter_posts` keeps: with `restrict` the visible ones,
      without it all of them. */
  function Kept(db: Db, posts: seq<Post>, restrict: bool, now: Time): (kept: seq<Post>)
    ensures forall p :: multiset(kept)[p] == if restrict && !Visible(db, p, now) then 0 else multiset(posts)[p]
    ensures forall p :: p in kept <==> p in posts && (restrict ==> Visible(db, p, now))
  {
    if restrict then Filter(posts, (p: Post) => Visible(db, p, now)) else posts
  }

  /** The `comment_count` annotation of each post, in the same order. */
  function Annotate(db: Db, posts: seq<Post>): (rows: seq<PostRow>)
    ensures RowPosts(rows) == posts
    ensures forall i :: 0 <= i < |rows| ==> rows[i].commentCount == CommentCount(db, rows[i].post.id)
  {
    var rows := seq(|posts|, i requires 0 <= i < |posts| => PostRow(posts[i], CommentCount(db, posts[i].id)));
    assert RowPosts(rows) == posts;
    rows
  }

  /** `filter_posts`: with `restrict`, the visible posts of `posts`, without
      it all of them; newest first, each with its number of comments. */
  function FilterPosts(db: Db, posts: seq<Post>, restrict: bool, now: Time): (rows: seq<PostRow>)
    ensures forall p ::
              multiset(RowPosts(rows))[p] == if restrict && !Visible(db, p, now) then 0 else multiset(posts)[p]
    ensures forall p :: p in RowPosts(rows) <==> p in posts && (restrict ==> Visible(db, p, now))
    ensures NewestFirst(RowPosts(rows))
    ensures forall i :: 0 <= i < |rows| ==> rows[i].commentCount == CommentCount(db, rows[i].post.id)
  {
    Annotate(db, OrderPosts(Kept(db, posts, restrict, now)))
  }

  /** `IndexListView`: every visible post of the blog. */
  function IndexListing(db: Db, now: Time): (rows: seq<PostRow>)
    ensures forall p :: p in RowPosts(rows) <==> p in db.posts && Visible(db, p, now)
    ensures NewestFirst(RowPosts(rows))
  {
    FilterPosts(db, db.posts, true, now)
  }

  /** `CategoryListView`: the visible posts of the published category with
      this slug; not found when there is no such category. */
  function CategoryListing(db: Db, slug: string, now: Time): (r: Response<seq<PostRow>>)
    ensures r.NotFound? || r.Ok?
    ensures r.NotFound? <==> forall c :: c in db.categories ==> !(c.isPublished && c.slug == slug)
    ensures r.Ok? ==> forall p :: p in RowPosts(r.value) ==> p in db.posts && Visible(db, p, now)
  {
    match Find(db.categories, (c: Category) => c.isPublished && c.slug == slug)
    case None => NotFound
    case Some(category) => Ok(FilterPosts(db, PostsIn(db, category.id), true, now))
  }

  /** The profile page: its owner and the owner's posts. */
  datatype ProfilePage = ProfilePage(profile: User, posts: seq<PostRow>)

  /** `ProfileListView`: the posts of the user with this username, filtered
      unless the requester is that user. */
  function ProfileListing(db: Db, req: Principal, username: string, now: Time): (r: Response<ProfilePage>)
    ensures r.NotFound? || r.Ok?
    ensures r.NotFound? <==> forall u :: u in db.users ==> u.username != username
    ensures r.Ok? ==> r.value.profile in db.users && r.value.profile.username == username
    ensures r.Ok? ==> forall p :: p in RowPosts(r.value.posts) ==> p in db.posts && p.author == r.value.profile.id
  {
    match GetUserByName(db, username)
    case None => NotFound
    case Some(owner) => Ok(ProfilePage(owner, FilterPosts(db, PostsBy(db, owner.id), !IsUser(req, owner.id), now)))
  }

  /** The post page: the post and its comments in their default order. */
  datatype DetailPage = DetailPage(post: Post, comments: seq<Comment>)

  /** The lookup by key in the restricted listing of all posts. */
  function FindVisible(db: Db, id: PostId, now: Time): (r: Option<Post>)
    ensures r.Some? ==> r.value in db.posts && r.value.id == id && Visible(db, r.value, now)
  {
    var rows := FilterPosts(db, db.posts, true, now);
    match Find(rows, (row: PostRow) => row.post.id == id)
    case None => None
    case Some(row) => RowInListing(rows, row); Some(row.post)
  }

  /** `PostDetailView`: the author sees their post whatever its state;
      anyone else only finds it through the restricted filter. */
  function PostDetail(db: Db, req: Principal, id: PostId, now: Time): (r: Response<DetailPage>)
    ensures r.NotFound? || r.Ok?
    ensures !HasPost(db, id) ==> r.NotFound?
    ensures r.Ok? ==> && r.value.post in db.posts && r.value.post.id == id
                      && (IsUser(req, r.value.post.author) || Visible(db, r.value.post, now))
    ensures r.Ok? ==> && OldestFirst(r.value.comments)
                      && forall c :: c in r.value.comments <==> c in db.comments && c.post == id
  {
    match GetPost(db, id)
    case None => NotFound
    case Some(post) =>
      var shown := if IsUser(req, post.author) then Some(post) else FindVisible(db, id, now);
      match shown
      case None => NotFound
      case Some(p) => Ok(DetailPage(p, OrderComments(CommentsOn(db, p.id))))
  }

  /** `PostUpdateDeleteMixin.dispatch`, then `LoginRequiredMixin`: a missing
      post is not found, anyone but the author is sent to the post page, and
      only then is a login demanded. */
  function PostEditAccess(db: Db, req: Principal, id: PostId): (r: Response<Post>)
    ensures r.NotFound? <==> !HasPost(db, id)
    ensures r.Ok? ==> r.value in db.posts && r.value.id == id && IsUser(req, r.value.author)
    ensures r.Redirect? ==> r.to == ToPost(id)
  {
    match GetPost(db, id)
    case None => NotFound
    case Some(post) =>
      if !IsUser(req, post.author) then Redirect(ToPost(id))
      else if req.Anonymous? then LoginRequired
      else Ok(post)
  }

  /** `LoginRequiredMixin`, then `CommentUpdateDeleteMixin.get_object`: the
      comment is looked up by key AND author, so someone else's comment is
      not found. The post key of the URL plays no part. */
  function CommentEditAccess(db: Db, req: Principal, id: CommentId): (r: Response<Comment>)
    ensures r.LoginRequired? || r.NotFound? || r.Ok?
    ensures r.LoginRequired? <==> req.Anonymous?
    ensures r.Ok? ==> r.value in db.comments && r.value.id == id && IsUser(req, r.value.author)
    ensures r.NotFound? <==> req.Member? && forall c :: c in db.comments ==> !(c.id == id && c.author == req.user.id)
  {
    if req.Anonymous? then LoginRequired
    else
      match Find(db.comments, (c: Comment) => c.id == id && c.author == req.user.id)
      case None => NotFound
      case Some(comment) => Ok(comment)
  }

  /** `CommentUpdateDeleteMixin.get_success_url`: back to the post of the URL. */
  function CommentSuccessTarget(urlPost: PostId): Target {
    ToPost(urlPost)
  }

  /** `LoginRequiredMixin`, then `ProfileUpdateView.get_object`: the stored
      user with the requester's username; `.get` raising DoesNotExist is not
      caught. */
  function ProfileEditObject(db: Db, req: Principal): (r: Response<User>)
    ensures r.LoginRequired? || r.ServerError? || r.Ok?
    ensures r.LoginRequired? <==> req.Anonymous?
    ensures r.Ok? ==> r.value in db.users && r.value.username == req.user.username
    ensures r.ServerError? <==> req.Member? && forall u :: u in db.users ==> u.username != req.user.username
  {
    if req.Anonymous? then LoginRequired
    else
      match GetUserByName(db, req.user.username)
      case None => ServerError
      case Some(u) => Ok(u)
  }

  // ----- What the views guarantee -----

  /** A row of a listing is a row of one of its posts. */
  lemma RowInListing(rows: seq<PostRow>, row: PostRow)
    requires row in rows
    ensures row.post in RowPosts(rows)
  {
    var i :| 0 <= i < |rows| && rows[i] == row;
    assert RowPosts(rows)[i] == row.post;
  }

  /** The category page is not found exactly when no published category has
      the slug; otherwise it lists exactly the visible posts of that category. */
  lemma CategoryListingSpec(db: Db, slug: string, now: Time)
    requires WF(db)
    ensures var r := CategoryListing(db, slug, now);
      && (r.NotFound? || r.Ok?)
      && (r.NotFound? <==> forall c :: c in db.categories && c.slug == slug ==> !c.isPublished)
      && (forall c :: c in db.categories && c.slug == slug && c.isPublished ==>
            r.Ok? && forall p :: p in RowPosts(r.value) <==> p in db.posts && p.category == Some(c.id) && Visible(db, p, now))
  {
    var found := Find(db.categories, (c: Category) => c.isPublished && c.slug == slug);
    forall c | c in db.categories && c.slug == slug && c.isPublished ensures found == Some(c) {
      SlugIdentifiesCategory(db, found.value, c);
    }
  }

  /** The profile page is not found exactly when no user has the username.
      Otherwise it shows that user and only their posts: all of them to the
      user themself, only the visible ones to anybody else. */
  lemma ProfileListingSpec(db: Db, req: Principal, username: string, now: Time)
    requires WF(db)
    ensures var r := ProfileListing(db, req, username, now);
      && (r.NotFound? || r.Ok?)
      && (r.NotFound? <==> forall u :: u in db.users ==> u.username != username)
      && (forall u :: u in db.users && u.username == username ==>
            && r.Ok? && r.value.profile == u
            && forall p :: p in RowPosts(r.value.posts) <==>
                 p in db.posts && p.author == u.id && (IsUser(req, u.id) || Visible(db, p, now)))
  {
    forall u | u in db.users && u.username == username {
      ProfileOf(db, req, u, now);
    }
  }

  /** The profile page of a stored user. */
  lemma ProfileOf(db: Db, req: Principal, u: User, now: Time)
    requires WF(db) && u in db.users
    ensures ProfileListing(db, req, u.username, now) ==
      Ok(ProfilePage(u, FilterPosts(db, PostsBy(db, u.id), !IsUser(req, u.id), now)))
  {
    var found := GetUserByName(db, u.username);
    UsernameIdentifiesUser(db, found.value, u);
  }

  /** The restricted lookup by key finds a stored post exactly when it is visible. */
  lemma FindVisibleSpec(db: Db, p: Post, now: Time)
    requires WF(db) && p in db.posts
    ensures FindVisible(db, p.id, now) == if Visible(db, p, now) then Some(p) else None
  {
    var rows := FilterPosts(db, db.posts, true, now);
    var pick := (row: PostRow) => row.post.id == p.id;
    if Visible(db, p, now) {
      var i :| 0 <= i < |rows| && RowPosts(rows)[i] == p;
      assert rows[i] in rows && pick(rows[i]);
    }
    var found := Find(rows, pick);
    if found.Some? {
      RowInListing(rows, found.value);
      KeyDetermines(db.posts, PostKey, found.value.post, p);
    }
  }

  /** The post page for a stored post. */
  lemma PostDetailOf(db: Db, req: Principal, p: Post, now: Time)
    requires WF(db) && p in db.posts
    ensures PostDetail(db, req, p.id, now) ==
      if IsUser(req, p.author) || Visible(db, p, now) then Ok(DetailPage(p, OrderComments(CommentsOn(db, p.id))))
      else NotFound
  {
    GetPostUnique(db, p);
    FindVisibleSpec(db, p, now);
  }

  /** The post page: not found for a missing key. For a stored post, the
      author always sees it, anybody else only when it is visible, and the
      page carries exactly the post's comments, oldest first. */
  lemma PostDetailSpec(db: Db, req: Principal, id: PostId, now: Time)
    requires WF(db)
    ensures var r := PostDetail(db, req, id, now);
      && (r.NotFound? || r.Ok?)
      && (!HasPost(db, id) ==> r.NotFound?)
      && (forall p :: p in db.posts && p.id == id ==>
            && (r.Ok? <==> IsUser(req, p.author) || Visible(db, p, now))
            && (r.Ok? ==> r.value.post == p))
      && (r.Ok? ==>
            && OldestFirst(r.value.comments)
            && forall c :: c in r.value.comments <==> c in db.comments && c.post == id)
  {
    if HasPost(db, id) {
      var p :| p in db.posts && p.id == id;
      PostDetailOf(db, req, p, now);
      forall q | q in db.posts && q.id == id ensures q == p {
        KeyDetermines(db.posts, PostKey, q, p);
      }
    }
  }

  /** In front of editing or deleting a post: not found for a missing key;
      the author gets the post; anybody else, logged in or not, is sent to the
      post page and is never asked to log in. */
  lemma PostEditAccessSpec(db: Db, req: Principal, id: PostId)
    requires WF(db)
    ensures var r := PostEditAccess(db, req, id);
      && (!HasPost(db, id) ==> r == NotFound)
      && (forall p :: p in db.posts && p.id == id ==>
            if IsUser(req, p.author) then r == Ok(p) else r == Redirect(ToPost(id)))
      && r != LoginRequired
  {
    if HasPost(db, id) {
      var p :| p in db.posts && p.id == id;
      GetPostUnique(db, p);
      forall q | q in db.posts && q.id == id ensures q == p {
        KeyDetermines(db.posts, PostKey, q, p);
      }
    }
  }

  /** In front of editing or deleting a comment: an anonymous requester must
      log in; otherwise the requester gets the comment with that key if they
      wrote it, and not found if it is missing or someone else's. */
  lemma CommentEditAccessSpec(db: Db, req: Principal, id: CommentId)
    requires WF(db)
    ensures var r := CommentEditAccess(db, req, id);
      && (req.Anonymous? <==> r == LoginRequired)
      && (r.Ok? ==> r.value in db.comments && r.value.id == id && IsUser(req, r.value.author))
      && (req.Member? ==> forall c :: c in db.comments && c.id == id ==>
            if c.author == req.user.id then r == Ok(c) else r == NotFound)
      && (req.Member? && (forall c :: c in db.comments ==> c.id != id) ==> r == NotFound)
  {
    if req.Member? {
      var found := Find(db.comments, (c: Comment) => c.id == id && c.author == req.user.id);
      forall c | c in db.comments && c.id == id
        ensures if c.author == req.user.id then found == Some(c) else found.None?
      {
        if found.Some? {
          KeyDetermines(db.comments, CommentKey, found.value, c);
        }
      }
    }
  }

  /** The profile form edits the requester's own record. */
  lemma ProfileEditObjectSpec(db: Db, req: Principal)
    requires WF(db) && Authentic(db, req)
    ensures var r := ProfileEditObject(db, req);
      if req.Anonymous? then r == LoginRequired else r == Ok(req.user)
  {
    if req.Member? {
      var found := GetUserByName(db, req.user.username);
      UsernameIdentifiesUser(db, found.value, req.user);
    }
  }

  /** A post scheduled for later is on no restricted listing: not on the
      index, not on its category's page, and not on its author's profile as
      anybody but the author sees it. */
  lemma ScheduledPostHidden(db: Db, req: Principal, p: Post, now: Time, slug: string, username: string)
    requires p.pubDate > now
    ensures p !in RowPosts(IndexListing(db, now))
    ensures var r := CategoryListing(db, slug, now);
      r.Ok? ==> p !in RowPosts(r.value)
    ensures var r := ProfileListing(db, req, username, now);
      r.Ok? && !IsUser(req, r.value.profile.id) ==> p !in RowPosts(r.value.posts)
  {
    assert !Visible(db, p, now);
    match Find(db.categories, (c: Category) => c.isPublished && c.slug == slug)
    case None => {}
    case Some(category) => {
      var rows := FilterPosts(db, PostsIn(db, category.id), true, now);
      assert p !in RowPosts(rows);
    }
    match GetUserByName(db, username)
    case None => {}
    case Some(owner) => {
      var rows := FilterPosts(db, PostsBy(db, owner.id), !IsUser(req, owner.id), now);
      assert !IsUser(req, owner.id) ==> p !in RowPosts(rows);
    }
  }

  /** Once visible, a post stays visible as time passes. */
  lemma VisibleStaysVisible(db: Db, p: Post, now: Time, later: Time)
    requires Visible(db, p, now) && now <= later
    ensures Visible(db, p, later)
  {
  }

  // ----- Two scenarios of the blog's behaviour -----

  /** Post A is published, due and in a published category; post B, by the
      same user, is unpublished. An anonymous visitor of the author's profile
      sees only A; the author sees both. */
  lemma ProfileScenario(db: Db, author: User, news: Category, a: Post, b: Post, now: Time)
    requires WF(db) && author in db.users && news in db.categories && news.isPublished
    requires forall p :: p in db.posts && p.author == author.id <==> p == a || p == b
    requires a.isPublished && a.pubDate < now && a.category == Some(news.id)
    requires !b.isPublished
    ensures var anonymous := ProfileListing(db, Anonymous, author.username, now);
      anonymous.Ok? && forall p :: p in RowPosts(anonymous.value.posts) <==> p == a
    ensures var own := ProfileListing(db, Member(author), author.username, now);
      own.Ok? && forall p :: p in RowPosts(own.value.posts) <==> p == a || p == b
  {
    ProfileOf(db, Anonymous, author, now);
    ProfileOf(db, Member(author), author, now);
    var mine := PostsBy(db, author.id);
    assert Visible(db, a, now);
    assert a in mine && b in mine;
    var shown := RowPosts(FilterPosts(db, mine, true, now));
    forall p ensures p in shown <==> p == a {
      if p in shown { assert p in db.posts && p.author == author.id; }
    }
  }

  /** A comment written by one user cannot be edited by another: the lookup
      finds nothing. */
  lemma CommentScenario()
    ensures var writer := User(2, "writer", "", "", "");
      var other := User(3, "other", "", "", "");
      var c := Comment(7, "hello", writer.id, 1, 0);
      var db := Db([writer, other], [], [], [Post(1, "A", "a", 0, writer.id, None, None, 0)], [c]);
      CommentEditAccess(db, Member(other), 7) == NotFound && CommentEditAccess(db, Member(writer), 7) == Ok(c)
  {
  }
}
