/** The views that write: creating a post or a comment, editing or deleting
    one, and editing the requester's profile. The database is one object
    whose tables these methods replace. The edit and delete methods decide
    through the matching access function of Views; every method saves,
    inserts or deletes through the matching function of Models. */
module Store {
  import opened Query
  import opened Models
  import opened Views

  /** The fields `PostForm` carries: every column but `author`. The
      publication flag is a checkbox, so it is whatever was submitted. */
  datatype PostForm = PostForm(
    title: string, text: string, pubDate: Time,
    location: Option<LocationId>, category: Option<CategoryId>, isPublished: bool)

  /** The form's validation: title and text filled in, the title fits its
      column, a stored category (the column is nullable but not blank, so the
      form demands one) and, when given, a stored location. */
  predicate PostFormValid(db: Db, f: PostForm) {
    && 0 < |f.title| <= TitleMaxLength
    && |f.text| > 0
    && f.category.Some? && HasCategory(db, f.category.value)
    && (f.location.Some? ==> HasLocation(db, f.location.value))
  }

  /** `CommentForm` carries the text only, which is required. */
  predicate CommentFormValid(text: string) {
    |text| > 0
  }

  /** The fields `ProfileForm` carries. */
  datatype ProfileForm = ProfileForm(username: string, firstName: string, lastName: string, email: string)

  /** A username is required and must not belong to another user. */
  predicate ProfileFormValid(db: Db, me: UserId, f: ProfileForm) {
    |f.username| > 0 && forall u :: u in db.users && u.id != me ==> u.username != f.username
  }

  /** The row a valid post form creates for `author` at `now`. */
  function NewPost(id: PostId, f: PostForm, author: UserId, now: Time): (p: Post)
    ensures p.author == author && p.createdAt == now && p.id == id
    ensures p.isPublished == f.isPublished && p.pubDate == f.pubDate && p.category == f.category
  {
    Post(id, f.title, f.text, f.pubDate, author, f.location, f.category, now, f.isPublished)
  }

  /** A stored post with the form's fields; key, author and creation time stay. */
  function EditedPost(p: Post, f: PostForm): (e: Post)
    ensures e.id == p.id && e.author == p.author && e.createdAt == p.createdAt
  {
    p.(title := f.title, text := f.text, pubDate := f.pubDate,
       location := f.location, category := f.category, isPublished := f.isPublished)
  }

  lemma FormPostRefsOk(db: Db, p: Post, f: PostForm)
    requires PostFormValid(db, f) && HasUser(db, p.author)
    ensures PostRefsOk(db, EditedPost(p, f)) && |EditedPost(p, f).title| <= TitleMaxLength
  {
  }

  /** A consistent store whose post and comment keys are all below the
      next keys the database hands out. */
  ghost predicate Counted(db: Db, nextPost: PostId, nextComment: CommentId) {
    && WF(db)
    && (forall p :: p in db.posts ==> p.id < nextPost)
    && (forall c :: c in db.comments ==> c.id < nextComment)
  }

  /** A comment with the next key, on a stored post by a stored user, keeps
      the store consistent and every key below the next one. */
  lemma NewCommentKeepsStore(db: Db, nextPost: PostId, next: CommentId, c: Comment)
    requires Counted(db, nextPost, next) && CommentRefsOk(db, c) && c.id == next
    ensures Counted(InsertComment(db, c), nextPost, next + 1)
  {
    InsertCommentRule(db, c);
  }

  class Blog {
    var db: Db
    /** The next primary keys the database hands out; keys are never reused. */
    var nextPostId: PostId
    var nextCommentId: CommentId

    ghost predicate Valid()
      reads this
    {
      Counted(db, nextPostId, nextCommentId)
    }

    constructor (initial: Db)
      requires WF(initial)
      ensures Valid() && db == initial
    {
      db := initial;
      nextPostId := Bound(initial.posts, PostKey);
      nextCommentId := Bound(initial.comments, CommentKey);
    }

    /** `PostCreateView`: a logged-in requester with a valid form adds one
        post, written by the requester and created now, and is sent to their
        profile. */
    method PostCreate(req: Principal, form: PostForm, now: Time) returns (r: Response<Post>)
      requires Valid() && Authentic(db, req)
      modifies this
      ensures Valid()
      ensures req.Anonymous? ==> r == LoginRequired && db == old(db)
      ensures req.Member? && !PostFormValid(old(db), form) ==> r == FormErrors && db == old(db)
      ensures nextCommentId == old(nextCommentId)
      ensures !(req.Member? && PostFormValid(old(db), form)) ==> nextPostId == old(nextPostId)
      ensures req.Member? && PostFormValid(old(db), form) ==>
        && r == Redirect(ToProfile(req.user.username))
        && nextPostId == old(nextPostId) + 1
        && db == InsertPost(old(db), NewPost(old(nextPostId), form, req.user.id, now))
        && db.posts[|db.posts| - 1].author == req.user.id
    {
      if req.Anonymous? {
        return LoginRequired;
      }
      if !PostFormValid(db, form) {
        return FormErrors;
      }
      var post := NewPost(nextPostId, form, req.user.id, now);
      InsertPostRule(db, post);
      db := InsertPost(db, post);
      nextPostId := nextPostId + 1;
      r := Redirect(ToProfile(req.user.username));
    }

    /** `CommentCreateView`: a logged-in requester with a valid form adds one
        comment on the post of the URL, written by the requester and created
        now; a missing post is not found. */
    method CommentCreate(req: Principal, post: PostId, text: string, now: Time) returns (r: Response<Comment>)
      requires Valid() && Authentic(db, req)
      modifies this
      ensures Valid()
      ensures req.Anonymous? ==> r == LoginRequired && db == old(db)
      ensures req.Member? && !CommentFormValid(text) ==> r == FormErrors && db == old(db)
      ensures req.Member? && CommentFormValid(text) && !HasPost(old(db), post) ==> r == NotFound && db == old(db)
      ensures nextPostId == old(nextPostId)
      ensures !(req.Member? && CommentFormValid(text) && HasPost(old(db), post)) ==> nextCommentId == old(nextCommentId)
      ensures req.Member? && CommentFormValid(text) && HasPost(old(db), post) ==>
        && r == Redirect(ToPost(post))
        && nextCommentId == old(nextCommentId) + 1
        && db == InsertComment(old(db), Comment(old(nextCommentId), text, req.user.id, post, now))
    {
      if req.Anonymous? {
        return LoginRequired;
      }
      if !CommentFormValid(text) {
        return FormErrors;
      }
      if GetPost(db, post).None? {
        return NotFound;
      }
      var comment := Comment(nextCommentId, text, req.user.id, post, now);
      assert CommentRefsOk(db, comment) by {
        assert req.user in db.users;
        assert GetPost(db, post).value in db.posts;
      }
      NewCommentKeepsStore(db, nextPostId, nextCommentId, comment);
      db := InsertComment(db, comment);
      nextCommentId := nextCommentId + 1;
      r := Redirect(ToPost(post));
    }

    /** `PostUpdateView`: only the author changes the post; anybody else is
        sent to the post page and nothing changes. */
    method PostUpdate(req: Principal, id: PostId, form: PostForm) returns (r: Response<Post>)
      requires Valid()
      modifies this
      ensures Valid()
      ensures nextPostId == old(nextPostId) && nextCommentId == old(nextCommentId)
      ensures var access := PostEditAccess(old(db), req, id);
        && (!access.Ok? ==> r == access && db == old(db))
        && (access.Ok? && !PostFormValid(old(db), form) ==> r == FormErrors && db == old(db))
        && (access.Ok? && PostFormValid(old(db), form) ==>
              r == Redirect(ToPost(id)) && db == SavePost(old(db), EditedPost(access.value, form)))
      ensures forall p :: p in old(db.posts) && p.id == id && !IsUser(req, p.author) ==>
        r == Redirect(ToPost(id)) && db == old(db)
    {
      PostEditAccessSpec(db, req, id);
      var access := PostEditAccess(db, req, id);
      if !access.Ok? {
        return access;
      }
      if !PostFormValid(db, form) {
        return FormErrors;
      }
      var edited := EditedPost(access.value, form);
      assert PostRefsOk(db, access.value);
      FormPostRefsOk(db, access.value, form);
      SavePostRule(db, edited);
      db := SavePost(db, edited);
      r := Redirect(ToPost(id));
    }

    /** `PostDeleteView`: only the author deletes the post, and its comments
        go with it; anybody else is sent to the post page and nothing changes. */
    method PostDelete(req: Principal, id: PostId) returns (r: Response<Post>)
      requires Valid()
      modifies this
      ensures Valid()
      ensures nextPostId == old(nextPostId) && nextCommentId == old(nextCommentId)
      ensures var access := PostEditAccess(old(db), req, id);
        && (!access.Ok? ==> r == access && db == old(db))
        && (access.Ok? ==> req.Member? && r == Redirect(ToProfile(req.user.username)) && db == DeletePost(old(db), id))
      ensures forall p :: p in old(db.posts) && p.id == id && !IsUser(req, p.author) ==>
        r == Redirect(ToPost(id)) && db == old(db)
    {
      PostEditAccessSpec(db, req, id);
      var access := PostEditAccess(db, req, id);
      if !access.Ok? {
        return access;
      }
      DeletePostRule(db, id);
      db := DeletePost(db, id);
      r := Redirect(ToProfile(req.user.username));
    }

    /** `CommentUpdateView`: only the comment's author changes its text; for
        anybody else the comment is not found and nothing changes. */
    method CommentUpdate(req: Principal, urlPost: PostId, id: CommentId, text: string) returns (r: Response<Comment>)
      requires Valid()
      modifies this
      ensures Valid()
      ensures nextPostId == old(nextPostId) && nextCommentId == old(nextCommentId)
      ensures var access := CommentEditAccess(old(db), req, id);
        && (!access.Ok? ==> r == access && db == old(db))
        && (access.Ok? && !CommentFormValid(text) ==> r == FormErrors && db == old(db))
        && (access.Ok? && CommentFormValid(text) ==>
              r == Redirect(ToPost(urlPost)) && db == SaveComment(old(db), access.value.(text := text)))
      ensures forall c :: req.Member? && c in old(db.comments) && c.id == id && c.author != req.user.id ==>
        r == NotFound && db == old(db)
    {
      CommentEditAccessSpec(db, req, id);
      var access := CommentEditAccess(db, req, id);
      if !access.Ok? {
        return access;
      }
      if !CommentFormValid(text) {
        return FormErrors;
      }
      var edited := access.value.(text := text);
      assert CommentRefsOk(db, access.value);
      SaveCommentRule(db, edited);
      db := SaveComment(db, edited);
      r := Redirect(CommentSuccessTarget(urlPost));
    }

    /** `CommentDeleteView`: only the comment's author deletes it; for
        anybody else it is not found and nothing changes. */
    method CommentDelete(req: Principal, urlPost: PostId, id: CommentId) returns (r: Response<Comment>)
      requires Valid()
      modifies this
      ensures Valid()
      ensures nextPostId == old(nextPostId) && nextCommentId == old(nextCommentId)
      ensures var access := CommentEditAccess(old(db), req, id);
        && (!access.Ok? ==> r == access && db == old(db))
        && (access.Ok? ==> r == Redirect(ToPost(urlPost)) && db == DeleteComment(old(db), id))
      ensures forall c :: req.Member? && c in old(db.comments) && c.id == id && c.author != req.user.id ==>
        r == NotFound && db == old(db)
    {
      CommentEditAccessSpec(db, req, id);
      var access := CommentEditAccess(db, req, id);
      if !access.Ok? {
        return access;
      }
      DeleteCommentRule(db, id);
      db := DeleteComment(db, id);
      r := Redirect(CommentSuccessTarget(urlPost));
    }

    /** `ProfileUpdateView`: a logged-in requester edits their own record
        and is sent to the index. */
    method ProfileUpdate(req: Principal, form: ProfileForm) returns (r: Response<User>)
      requires Valid() && Authentic(db, req)
      modifies this
      ensures Valid()
      ensures nextPostId == old(nextPostId) && nextCommentId == old(nextCommentId)
      ensures req.Anonymous? ==> r == LoginRequired && db == old(db)
      ensures req.Member? && !ProfileFormValid(old(db), req.user.id, form) ==> r == FormErrors && db == old(db)
      ensures req.Member? && ProfileFormValid(old(db), req.user.id, form) ==>
        && r == Redirect(ToIndex)
        && db == SaveUser(old(db), req.user.(username := form.username, firstName := form.firstName,
                                             lastName := form.lastName, email := form.email))
    {
      ProfileEditObjectSpec(db, req);
      var me := ProfileEditObject(db, req);
      if !me.Ok? {
        return me;
      }
      if !ProfileFormValid(db, me.value.id, form) {
        return FormErrors;
      }
      var edited := me.value.(username := form.username, firstName := form.firstName,
                              lastName := form.lastName, email := form.email);
      SaveUserRule(db, edited);
      db := SaveUser(db, edited);
      r := Redirect(ToIndex);
    }
  }
}
