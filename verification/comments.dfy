/** The comment routes of `backend/app.py`:
    `GET` and `POST /api/articles/<aid>/comments`. */
module Commenting {
  import opened Common
  import opened Text
  import opened Models
  import Ids
  import Ordering

  /** One entry of a comment thread as the API shows it. */
  datatype CommentView = CommentView(id: nat, user: string, content: string, createdAt: nat)

  /** Creation stamp of every comment, keyed by comment id. */
  function CommentStamps(comments: map<nat, Comment>): (m: map<nat, nat>)
    ensures m.Keys == comments.Keys
    ensures forall c :: c in m ==> m[c] == comments[c].createdAt
  {
    map c | c in comments :: comments[c].createdAt
  }

  function ViewIds(views: seq<CommentView>): (ids: seq<nat>)
    ensures |ids| == |views|
    ensures forall i :: 0 <= i < |views| ==> ids[i] == views[i].id
  {
    seq(|views|, i requires 0 <= i < |views| => views[i].id)
  }

  /** Some comment on `aid` names a user row that does not exist. */
  predicate HasOrphanAuthor(s: Store, aid: nat) {
    exists c :: c in s.comments && s.comments[c].articleId == aid && s.comments[c].userId !in s.users
  }

  /** `v` is how comment `v.id`, attached to `aid`, is shown: its author's
      current name, its text and its stamp. */
  ghost predicate ShowsComment(s: Store, aid: nat, v: CommentView) {
    && v.id in s.comments
    && s.comments[v.id].articleId == aid
    && s.comments[v.id].userId in s.users
    && v.user == s.users[s.comments[v.id].userId].username
    && v.content == s.comments[v.id].content
    && v.createdAt == s.comments[v.id].createdAt
  }

  /** The rows for comment ids `ids`, in that order. */
  function Render(s: Store, aid: nat, ids: seq<nat>): (views: seq<CommentView>)
    requires forall i :: 0 <= i < |ids| ==>
               ids[i] in s.comments && s.comments[ids[i]].articleId == aid && s.comments[ids[i]].userId in s.users
    ensures ViewIds(views) == ids
    ensures forall i :: 0 <= i < |views| ==> ShowsComment(s, aid, views[i])
  {
    var views := seq(|ids|, i requires 0 <= i < |ids| =>
      var c := s.comments[ids[i]];
      CommentView(ids[i], s.users[c.userId].username, c.content, c.createdAt));
    assert ViewIds(views) == ids;
    views
  }

  /** `GET /api/articles/<aid>/comments`: 404 for a missing article; otherwise
      the article's comments, oldest first. Rendering `c.user.username` for
      a comment whose user row is missing raises, which is a 500. */
  function GetComments(s: Store, aid: nat): (r: Outcome<seq<CommentView>>)
    ensures r.NotFound? <==> aid !in s.articles
    ensures r.ServerError? <==> aid in s.articles && HasOrphanAuthor(s, aid)
    ensures r.Ok? || r.NotFound? || r.ServerError?
    ensures r.Ok? ==> multiset(ViewIds(r.value)) == multiset(CommentsOn(s.comments, aid))
    ensures r.Ok? ==> forall i :: 0 <= i < |r.value| ==> ShowsComment(s, aid, r.value[i])
    ensures r.Ok? ==>
              forall i, j :: 0 <= i < j < |r.value| ==> r.value[i].createdAt <= r.value[j].createdAt
  {
    if aid !in s.articles then NotFound
    else if HasOrphanAuthor(s, aid) then ServerError
    else
      var stamps := CommentStamps(s.comments);
      var on := CommentsOn(s.comments, aid);
      var ids := Ordering.Arrange(stamps, false, on);
      Ordering.ArrangeMembers(stamps, false, on);
      var views := Render(s, aid, ids);
      assert forall i :: 0 <= i < |views| ==> views[i].createdAt == stamps[ids[i]];
      Ok(views)
  }

  /** `POST /api/articles/<aid>/comments`: 401 before anything else (the
      decorator runs first), then 404 for a missing article, then 400 for
      empty stripped content. The new comment is attached to `aid` and owned
      by the caller. */
  function PostComment(s: Store, auth: Option<nat>, aid: nat, content: Option<string>): (r: Step<nat>)
    ensures auth.None? ==> r.out.Unauthorized?
    ensures auth.Some? && aid !in s.articles ==> r.out.NotFound?
    ensures auth.Some? && aid in s.articles ==> (r.out.BadRequest? <==> Strip(OrEmpty(content)) == [])
    ensures auth.Some? && aid in s.articles && Strip(OrEmpty(content)) != [] ==> r.out.Created?
    ensures r.out.Unauthorized? || r.out.NotFound? || r.out.BadRequest? || r.out.Created?
    ensures !r.out.Created? ==> r.store == s
    ensures r.out.Created? ==>
              var cid := r.out.value;
              && auth.Some? && aid in s.articles
              && cid == Ids.NextId(s.comments.Keys)
              && r.store.comments.Keys == s.comments.Keys + {cid}
              && (forall c :: c in s.comments ==> r.store.comments[c] == s.comments[c])
              && r.store.comments[cid].articleId == aid
              && r.store.comments[cid].userId == auth.value
              && r.store.comments[cid].content == Strip(OrEmpty(content))
              && r.store.comments[cid].createdAt == s.clock
              && r.store.users == s.users && r.store.articles == s.articles
              && r.store.clock == s.clock + 1
  {
    match auth
    case None => Step(Unauthorized, s)
    case Some(uid) =>
      if aid !in s.articles then Step(NotFound, s)
      else
        var content := Strip(OrEmpty(content));
        if content == [] then Step(BadRequest, s)
        else
          var cid := Ids.NextId(s.comments.Keys);
          var comment := Comment(aid, uid, content, s.clock);
          InsertFresh(s.comments, cid, comment);
          Step(Created(cid), s.(comments := s.comments[cid := comment], clock := s.clock + 1))
  }

  // ---- Properties across calls ----

  /** When every comment names an existing user, reading a thread of an
      existing article never fails. */
  lemma KnownAuthorsNoServerError(s: Store, aid: nat)
    requires AuthorsKnown(s)
    requires aid in s.articles
    ensures GetComments(s, aid).Ok?
  {
  }

  /** A comment on `aid` stamped later than every other comment on it ends
      the thread, provided every comment on `aid` names an existing user. */
  lemma NewestEndsThread(t: Store, aid: nat, cid: nat)
    requires aid in t.articles && !HasOrphanAuthor(t, aid)
    requires cid in t.comments && t.comments[cid].articleId == aid
    requires forall c :: c in t.comments && c != cid && t.comments[c].articleId == aid ==>
               t.comments[c].createdAt < t.comments[cid].createdAt
    ensures var thread := GetComments(t, aid);
            thread.Ok? && |thread.value| > 0 && thread.value[|thread.value| - 1].id == cid
            && ShowsComment(t, aid, thread.value[|thread.value| - 1])
  {
    var views := GetComments(t, aid).value;
    var ids := ViewIds(views);
    var stamps := CommentStamps(t.comments);
    forall i | 0 <= i < |views|
      ensures ids[i] in stamps && stamps[ids[i]] == views[i].createdAt
      ensures ids[i] != cid ==> stamps[ids[i]] < stamps[cid]
    {
      assert ShowsComment(t, aid, views[i]);
    }
    assert Ordering.SortedByStamp(stamps, false, ids);
    assert cid in multiset(CommentsOn(t.comments, aid));
    Ordering.LatestAtNewestEnd(stamps, false, ids, cid);
  }

  /** A comment just posted by a registered user shows up at the end of its
      article's thread, after every older comment. */
  lemma PostThenRead(s: Store, uid: nat, aid: nat, content: string)
    requires AuthorsKnown(s) && StampsBeforeClock(s)
    requires uid in s.users && aid in s.articles && Strip(content) != []
    ensures var posted := PostComment(s, Some(uid), aid, Some(content));
            var thread := GetComments(posted.store, aid);
            && posted.out.Created?
            && thread.Ok?
            && |thread.value| > 0
            && thread.value[|thread.value| - 1].id == posted.out.value
            && thread.value[|thread.value| - 1].content == Strip(content)
  {
    var posted := PostComment(s, Some(uid), aid, Some(content));
    var t := posted.store;
    var cid := posted.out.value;
    assert AuthorsKnown(t);
    forall c | c in t.comments && c != cid && t.comments[c].articleId == aid
      ensures t.comments[c].createdAt < t.comments[cid].createdAt
    {
      assert c in s.comments;
    }
    NewestEndsThread(t, aid, cid);
  }
}
