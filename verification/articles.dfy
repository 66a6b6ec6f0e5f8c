/** The article routes of `backend/app.py`: creating (`POST /api/articles`),
    reading, updating and deleting one article (`/api/articles/<aid>`). */
module Articles {
  import opened Common
  import opened Text
  import opened Models
  import Ids

  /** What `GET /api/articles/<aid>` returns. */
  datatype Detail = Detail(
    id: nat, title: string, content: string, createdAt: nat,
    author: Option<string>, authorId: Option<nat>)

  /** `POST /api/articles`. The token is checked first (401), then the
      stripped title and content (400); the article is owned by the caller,
      whether or not a user row with that id exists. */
  function CreateArticle(s: Store, auth: Option<nat>, title: Option<string>, content: Option<string>): (r: Step<nat>)
    ensures r.out.Unauthorized? <==> auth.None?
    ensures auth.Some? ==>
              (r.out.BadRequest? <==> Strip(OrEmpty(title)) == [] || Strip(OrEmpty(content)) == [])
    ensures r.out.Unauthorized? || r.out.BadRequest? || r.out.Created?
    ensures !r.out.Created? ==> r.store == s
    ensures r.out.Created? ==>
              var aid := r.out.value;
              && auth.Some?
              && aid == Ids.NextId(s.articles.Keys)
              && r.store.articles.Keys == s.articles.Keys + {aid}
              && (forall a :: a in s.articles ==> r.store.articles[a] == s.articles[a])
              && r.store.articles[aid].title == Strip(OrEmpty(title))
              && r.store.articles[aid].content == Strip(OrEmpty(content))
              && r.store.articles[aid].userId == auth
              && r.store.articles[aid].createdAt == s.clock
              && r.store.users == s.users && r.store.comments == s.comments
              && r.store.clock == s.clock + 1
  {
    match auth
    case None => Step(Unauthorized, s)
    case Some(uid) =>
      var title := Strip(OrEmpty(title));
      var content := Strip(OrEmpty(content));
      if title == [] || content == [] then Step(BadRequest, s)
      else
        var aid := Ids.NextId(s.articles.Keys);
        var article := Article(title, content, s.clock, Some(uid));
        InsertFresh(s.articles, aid, article);
        Step(Created(aid), s.(articles := s.articles[aid := article], clock := s.clock + 1))
  }

  /** `GET /api/articles/<aid>`: 404 for a missing article; the author fields
      are filled only when the owner row exists. */
  function ArticleDetail(s: Store, aid: nat): (r: Outcome<Detail>)
    ensures r.NotFound? <==> aid !in s.articles
    ensures r.Ok? || r.NotFound?
    ensures r.Ok? ==>
              var a := s.articles[aid];
              && r.value.id == aid && r.value.title == a.title && r.value.content == a.content
              && r.value.createdAt == a.createdAt
              && r.value.author == AuthorName(s.users, a.userId)
              && (r.value.authorId.Some? <==> r.value.author.Some?)
              && (r.value.authorId.Some? ==> r.value.authorId == a.userId)
  {
    if aid !in s.articles then NotFound
    else
      var a := s.articles[aid];
      var author := AuthorName(s.users, a.userId);
      Ok(Detail(aid, a.title, a.content, a.createdAt, author, if author.Some? then a.userId else None))
  }

  /** `PATCH /api/articles/<aid>`: 401, then 404, then 403 unless the caller
      owns the article, and only then 400 for an empty stripped title or
      content. Only that article's title and content change. */
  function UpdateArticle(s: Store, auth: Option<nat>, aid: nat, title: Option<string>, content: Option<string>): (r: Step<()>)
    ensures auth.None? ==> r.out.Unauthorized?
    ensures auth.Some? && aid !in s.articles ==> r.out.NotFound?
    ensures auth.Some? && aid in s.articles && s.articles[aid].userId != auth ==> r.out.Forbidden?
    ensures auth.Some? && aid in s.articles && s.articles[aid].userId == auth ==>
              (r.out.BadRequest? <==> Strip(OrEmpty(title)) == [] || Strip(OrEmpty(content)) == [])
    ensures (auth.Some? && aid in s.articles && s.articles[aid].userId == auth
             && Strip(OrEmpty(title)) != [] && Strip(OrEmpty(content)) != []) ==> r.out.Ok?
    ensures r.out.Ok? || r.out.Unauthorized? || r.out.NotFound? || r.out.Forbidden? || r.out.BadRequest?
    ensures !r.out.Ok? ==> r.store == s
    ensures r.out.Ok? ==>
              && aid in s.articles && s.articles[aid].userId == auth
              && r.store.articles.Keys == s.articles.Keys
              && (forall a :: a in s.articles && a != aid ==> r.store.articles[a] == s.articles[a])
              && r.store.articles[aid].title == Strip(OrEmpty(title))
              && r.store.articles[aid].content == Strip(OrEmpty(content))
              && r.store.articles[aid].userId == s.articles[aid].userId
              && r.store.articles[aid].createdAt == s.articles[aid].createdAt
              && r.store.users == s.users && r.store.comments == s.comments
              && r.store.clock == s.clock
  {
    match auth
    case None => Step(Unauthorized, s)
    case Some(uid) =>
      if aid !in s.articles then Step(NotFound, s)
      else
        var a := s.articles[aid];
        if a.userId != Some(uid) then Step(Forbidden, s)
        else
          var title := Strip(OrEmpty(title));
          var content := Strip(OrEmpty(content));
          if title == [] || content == [] then Step(BadRequest, s)
          else
            var a' := a.(title := title, content := content);
            Overwrite(s.articles, aid, a');
            Step(Ok(()), s.(articles := s.articles[aid := a']))
  }

  /** `DELETE /api/articles/<aid>`: 401, then 404, then 403 unless the caller
      owns the article; the article and exactly its comments go. */
  function DeleteArticle(s: Store, auth: Option<nat>, aid: nat): (r: Step<()>)
    ensures auth.None? ==> r.out.Unauthorized?
    ensures auth.Some? && aid !in s.articles ==> r.out.NotFound?
    ensures auth.Some? && aid in s.articles && s.articles[aid].userId != auth ==> r.out.Forbidden?
    ensures auth.Some? && aid in s.articles && s.articles[aid].userId == auth ==> r.out.Ok?
    ensures !r.out.Ok? ==> r.store == s
    ensures r.out.Ok? ==>
              && r.store.articles.Keys == s.articles.Keys - {aid}
              && (forall a :: a in r.store.articles ==> r.store.articles[a] == s.articles[a])
              && (forall c :: c in r.store.comments <==> c in s.comments && s.comments[c].articleId != aid)
              && (forall c :: c in r.store.comments ==> r.store.comments[c] == s.comments[c])
              && r.store.users == s.users && r.store.clock == s.clock
  {
    match auth
    case None => Step(Unauthorized, s)
    case Some(uid) =>
      if aid !in s.articles then Step(NotFound, s)
      else if s.articles[aid].userId != Some(uid) then Step(Forbidden, s)
      else Step(Ok(()), DeleteCascade(s, aid))
  }

  // ---- Properties across calls ----

  /** An article without an owner, like the two demo articles, can be neither
      updated nor deleted by anyone: `a.user_id != uid` always holds. */
  lemma OwnerlessArticleIsFrozen(s: Store, auth: Option<nat>, aid: nat, title: Option<string>, content: Option<string>)
    requires aid in s.articles && s.articles[aid].userId.None?
    ensures !UpdateArticle(s, auth, aid, title, content).out.Ok?
    ensures !DeleteArticle(s, auth, aid).out.Ok?
    ensures UpdateArticle(s, auth, aid, title, content).store == s
    ensures DeleteArticle(s, auth, aid).store == s
  {
  }

  /** Only the owner can change an article: a successful update or delete
      was made by the owner's identity. */
  lemma OnlyOwnerWrites(s: Store, auth: Option<nat>, aid: nat, title: Option<string>, content: Option<string>)
    requires UpdateArticle(s, auth, aid, title, content).out.Ok? || DeleteArticle(s, auth, aid).out.Ok?
    ensures auth.Some? && aid in s.articles && s.articles[aid].userId == auth
  {
  }

  /** After a delete, the article is gone and nothing still points at it. */
  lemma DeleteThenDetailNotFound(s: Store, auth: Option<nat>, aid: nat)
    requires DeleteArticle(s, auth, aid).out.Ok?
    ensures var t := DeleteArticle(s, auth, aid).store;
            ArticleDetail(t, aid).NotFound? && CommentsOn(t.comments, aid) == {}
  {
  }

  /** A freshly created article has no comments, even when its id is a reused
      one, because deleting the earlier holder of that id took its comments
      along. */
  lemma CreatedArticleHasNoComments(s: Store, auth: Option<nat>, title: Option<string>, content: Option<string>)
    requires CommentsAttached(s)
    requires CreateArticle(s, auth, title, content).out.Created?
    ensures var r := CreateArticle(s, auth, title, content);
            CommentsOn(r.store.comments, r.out.value) == {}
  {
  }

  /** Ids are reused: deleting the article just created and creating another
      hands out the same id again. */
  lemma CreateDeleteCreateReusesId(s: Store, uid: nat, t1: string, c1: string, t2: string, c2: string)
    requires Strip(t1) != [] && Strip(c1) != [] && Strip(t2) != [] && Strip(c2) != []
    ensures var first := CreateArticle(s, Some(uid), Some(t1), Some(c1));
            var gone := DeleteArticle(first.store, Some(uid), first.out.value);
            var second := CreateArticle(gone.store, Some(uid), Some(t2), Some(c2));
            gone.out.Ok? && second.out.Created? && second.out.value == first.out.value
  {
    var first := CreateArticle(s, Some(uid), Some(t1), Some(c1));
    var aid := first.out.value;
    assert aid !in s.articles;
    assert first.store.articles[aid].userId == Some(uid);
    var gone := DeleteArticle(first.store, Some(uid), aid);
    assert gone.out.Ok?;
    assert gone.store.articles.Keys == s.articles.Keys;
    var second := CreateArticle(gone.store, Some(uid), Some(t2), Some(c2));
    assert second.out.Created?;
    assert second.out.value == Ids.NextId(gone.store.articles.Keys);
  }

  /** An article just created reads back with the stripped fields and the
      caller as author when the caller is a registered user. */
  lemma CreateThenDetail(s: Store, uid: nat, title: Option<string>, content: Option<string>)
    requires CreateArticle(s, Some(uid), title, content).out.Created?
    ensures var r := CreateArticle(s, Some(uid), title, content);
            var d := ArticleDetail(r.store, r.out.value);
            && d.Ok?
            && d.value.title == Strip(OrEmpty(title))
            && d.value.content == Strip(OrEmpty(content))
            && (uid in s.users ==> d.value.authorId == Some(uid) && d.value.author == Some(s.users[uid].username))
            && (uid !in s.users ==> d.value.author.None?)
  {
  }

  /** A successful update is what the article then reads as. */
  lemma UpdateThenDetail(s: Store, auth: Option<nat>, aid: nat, title: Option<string>, content: Option<string>)
    requires UpdateArticle(s, auth, aid, title, content).out.Ok?
    ensures var t := UpdateArticle(s, auth, aid, title, content).store;
            var d := ArticleDetail(t, aid);
            && d.Ok?
            && d.value.title == Strip(OrEmpty(title))
            && d.value.content == Strip(OrEmpty(content))
            && d.value.createdAt == s.articles[aid].createdAt
            && d.value.authorId == ArticleDetail(s, aid).value.authorId
  {
  }
}
