/** The backend as a state machine: every request that writes to the database
    is one atomic transition of the store, and the schema invariants hold in
    every store reachable from the seeded start. Read-only routes (`login`,
    the article and comment queries, `GET /api/me`) leave the store alone and
    are not transitions. */
module Blog {
  import opened Common
  import opened Text
  import opened Models
  import Ids
  import Accounts
  import Articles
  import Commenting
  import Listing

  /** A writing request, with its already-extracted JSON fields; `auth` is
      the identity resolved from the bearer token. `Restart` is the process
      starting again, which runs `init_db`. */
  datatype Request =
    | Register(username: Option<string>, password: Option<string>, salt: nat)
    | UpdateMe(auth: Option<nat>, username: Option<string>, avatarUrl: Option<string>)
    | CreateArticle(auth: Option<nat>, title: Option<string>, content: Option<string>)
    | UpdateArticle(auth: Option<nat>, aid: nat, title: Option<string>, content: Option<string>)
    | DeleteArticle(auth: Option<nat>, aid: nat)
    | PostComment(auth: Option<nat>, aid: nat, content: Option<string>)
    | Restart

  /** The identity a request acts for, if any. */
  function Caller(req: Request): Option<nat> {
    if req.Register? || req.Restart? then None else req.auth
  }

  // ---- Seeding ----

  const WelcomeTitle: string := "Hello, Mini Blog"
  const WelcomeBody: string := "我的第一篇文章！"
  const PlanTitle: string := "开发计划"
  const PlanBody: string := "目标功能：文章列表、详情、登录注册、评论。"

  /** `init_db`: when the articles table is empty, two ownerless demo
      articles are added, with ids 1 and 2; otherwise nothing happens. */
  function InitDb(s: Store): (t: Store)
    ensures s.articles != map[] ==> t == s
    ensures s.articles == map[] ==>
              && t.articles.Keys == {1, 2}
              && t.articles[1].title == WelcomeTitle && t.articles[1].content == WelcomeBody
              && t.articles[2].title == PlanTitle && t.articles[2].content == PlanBody
              && t.articles[1].userId.None? && t.articles[2].userId.None?
              && t.articles[1].createdAt == s.clock && t.articles[2].createdAt == s.clock + 1
              && t.users == s.users && t.comments == s.comments && t.clock == s.clock + 2
  {
    if s.articles != map[] then s
    else
      var first := Ids.NextId(s.articles.Keys);
      var withFirst := s.articles[first := Article(WelcomeTitle, WelcomeBody, s.clock, None)];
      var second := Ids.NextId(withFirst.Keys);
      assert withFirst.Keys == {1};
      s.(articles := withFirst[second := Article(PlanTitle, PlanBody, s.clock + 1, None)], clock := s.clock + 2)
  }

  /** The empty database. */
  const Empty: Store := Store(map[], map[], map[], 0)

  /** The store after the first start. */
  function Boot(): (s: Store)
    ensures s.users == map[] && s.comments == map[]
    ensures s.articles.Keys == {1, 2}
  {
    InitDb(Empty)
  }

  // ---- Transitions ----

  /** The store after one request. A protected route called without an
      identity stops at the token check and writes nothing. */
  function Apply(s: Store, req: Request): (t: Store)
    ensures !req.Register? && !req.Restart? && Caller(req).None? ==> t == s
  {
    match req
    case Register(username, password, salt) => Accounts.Register(s, username, password, salt).store
    case UpdateMe(auth, username, avatarUrl) => Accounts.UpdateMe(s, auth, username, avatarUrl).store
    case CreateArticle(auth, title, content) => Articles.CreateArticle(s, auth, title, content).store
    case UpdateArticle(auth, aid, title, content) => Articles.UpdateArticle(s, auth, aid, title, content).store
    case DeleteArticle(auth, aid) => Articles.DeleteArticle(s, auth, aid).store
    case PostComment(auth, aid, content) => Commenting.PostComment(s, auth, aid, content).store
    case Restart => InitDb(s)
  }

  /** The store after a sequence of requests, in order. */
  function Run(s: Store, reqs: seq<Request>): Store
    decreases |reqs|
  {
    if reqs == [] then s else Run(Apply(s, reqs[0]), reqs[1..])
  }

  // ---- The schema invariants are kept ----

  lemma DemoTextClean()
    ensures Clean(WelcomeTitle) && Clean(WelcomeBody) && Clean(PlanTitle) && Clean(PlanBody)
  {
    assert WelcomeTitle[0] == 'H' && WelcomeTitle[|WelcomeTitle| - 1] == 'g';
    assert WelcomeBody[0] == '我' && WelcomeBody[|WelcomeBody| - 1] == '！';
    assert PlanTitle[0] == '开' && PlanTitle[|PlanTitle| - 1] == '划';
    assert PlanBody[0] == '目' && PlanBody[|PlanBody| - 1] == '。';
  }

  lemma InitDbKeepsValid(s: Store)
    requires Valid(s)
    ensures Valid(InitDb(s))
  {
    if s.articles == map[] {
      var t := InitDb(s);
      DemoTextClean();
      assert ArticlesClean(t.articles) by {
        forall a | a in t.articles ensures Clean(t.articles[a].title) && Clean(t.articles[a].content) {
          assert a == 1 || a == 2;
        }
      }
      assert CommentsAttached(t) by {
        assert s.comments.Keys == {};
      }
      assert StampsBeforeClock(t) by {
        forall a | a in t.articles ensures t.articles[a].createdAt < t.clock {
          assert a == 1 || a == 2;
        }
      }
    }
  }

  lemma RegisterKeepsValid(s: Store, username: Option<string>, password: Option<string>, salt: nat)
    requires Valid(s)
    ensures Valid(Accounts.Register(s, username, password, salt).store)
  {
    var r := Accounts.Register(s, username, password, salt);
    if r.out.Created? {
      var t := r.store;
      var id := Ids.NextId(s.users.Keys);
      assert UniqueNames(t.users) by {
        forall i, j | i in t.users && j in t.users && i != j
          ensures t.users[i].username != t.users[j].username
        {
          if i != id && j != id {
            assert t.users[i] == s.users[i] && t.users[j] == s.users[j];
          }
        }
      }
      assert NamesClean(t.users) by {
        forall u | u in t.users ensures Clean(t.users[u].username) {
          if u != id {
            assert t.users[u] == s.users[u];
          }
        }
      }
      assert StampsBeforeClock(t) by {
        forall u | u in t.users ensures t.users[u].createdAt < t.clock {
          if u != id {
            assert t.users[u] == s.users[u];
          }
        }
      }
    }
  }

  lemma UpdateMeKeepsValid(s: Store, auth: Option<nat>, username: Option<string>, avatarUrl: Option<string>)
    requires Valid(s)
    ensures Valid(Accounts.UpdateMe(s, auth, username, avatarUrl).store)
  {
    var r := Accounts.UpdateMe(s, auth, username, avatarUrl);
    if r.out.Ok? {
      var t := r.store;
      var uid := auth.value;
      var name := Strip(OrEmpty(username));
      assert UniqueNames(t.users) by {
        forall i, j | i in t.users && j in t.users && i != j
          ensures t.users[i].username != t.users[j].username
        {
          if i == uid || j == uid {
            var other := if i == uid then j else i;
            assert t.users[other] == s.users[other];
            if name != [] && name != s.users[uid].username {
              assert !NameTaken(s.users, name);
            }
          } else {
            assert t.users[i] == s.users[i] && t.users[j] == s.users[j];
          }
        }
      }
      assert NamesClean(t.users) by {
        forall u | u in t.users ensures Clean(t.users[u].username) {
          if u != uid {
            assert t.users[u] == s.users[u];
          }
        }
      }
      assert StampsBeforeClock(t) by {
        forall u | u in t.users ensures t.users[u].createdAt < t.clock {
          if u != uid {
            assert t.users[u] == s.users[u];
          }
        }
      }
    }
  }

  lemma CreateArticleKeepsValid(s: Store, auth: Option<nat>, title: Option<string>, content: Option<string>)
    requires Valid(s)
    ensures Valid(Articles.CreateArticle(s, auth, title, content).store)
  {
    var r := Articles.CreateArticle(s, auth, title, content);
    if r.out.Created? {
      var t := r.store;
      var aid := r.out.value;
      assert ArticlesClean(t.articles) by {
        forall a | a in t.articles ensures Clean(t.articles[a].title) && Clean(t.articles[a].content) {
          if a != aid {
            assert t.articles[a] == s.articles[a];
          }
        }
      }
      assert StampsBeforeClock(t) by {
        forall a | a in t.articles ensures t.articles[a].createdAt < t.clock {
          if a != aid {
            assert t.articles[a] == s.articles[a];
          }
        }
      }
    }
  }

  lemma UpdateArticleKeepsValid(s: Store, auth: Option<nat>, aid: nat, title: Option<string>, content: Option<string>)
    requires Valid(s)
    ensures Valid(Articles.UpdateArticle(s, auth, aid, title, content).store)
  {
    var r := Articles.UpdateArticle(s, auth, aid, title, content);
    if r.out.Ok? {
      var t := r.store;
      assert ArticlesClean(t.articles) by {
        forall a | a in t.articles ensures Clean(t.articles[a].title) && Clean(t.articles[a].content) {
          if a != aid {
            assert t.articles[a] == s.articles[a];
          }
        }
      }
      assert CommentsAttached(t) by {
        assert t.articles.Keys == s.articles.Keys && t.comments == s.comments;
      }
      assert StampsBeforeClock(t) by {
        forall a | a in t.articles ensures t.articles[a].createdAt < t.clock {
          if a != aid {
            assert t.articles[a] == s.articles[a];
          }
        }
      }
    }
  }

  lemma DeleteArticleKeepsValid(s: Store, auth: Option<nat>, aid: nat)
    requires Valid(s)
    ensures Valid(Articles.DeleteArticle(s, auth, aid).store)
  {
    var r := Articles.DeleteArticle(s, auth, aid);
    if r.out.Ok? {
      var t := r.store;
      assert ArticlesClean(t.articles);
      assert CommentsClean(t.comments);
      assert CommentsAttached(t) by {
        forall c | c in t.comments ensures t.comments[c].articleId in t.articles {
          assert t.comments[c] == s.comments[c];
        }
      }
    }
  }

  lemma PostCommentKeepsValid(s: Store, auth: Option<nat>, aid: nat, content: Option<string>)
    requires Valid(s)
    ensures Valid(Commenting.PostComment(s, auth, aid, content).store)
  {
    var r := Commenting.PostComment(s, auth, aid, content);
    if r.out.Created? {
      var t := r.store;
      var cid := r.out.value;
      assert CommentsClean(t.comments) by {
        forall c | c in t.comments ensures Clean(t.comments[c].content) {
          if c != cid {
            assert t.comments[c] == s.comments[c];
          }
        }
      }
      assert CommentsAttached(t) by {
        forall c | c in t.comments ensures t.comments[c].articleId in t.articles {
          if c != cid {
            assert t.comments[c] == s.comments[c];
          }
        }
      }
      assert StampsBeforeClock(t) by {
        forall c | c in t.comments ensures t.comments[c].createdAt < t.clock {
          if c != cid {
            assert t.comments[c] == s.comments[c];
          }
        }
      }
    }
  }

  /** Every request keeps the invariants, whoever sends it. */
  lemma ApplyKeepsValid(s: Store, req: Request)
    requires Valid(s)
    ensures Valid(Apply(s, req))
  {
    match req
    case Register(username, password, salt) => RegisterKeepsValid(s, username, password, salt);
    case UpdateMe(auth, username, avatarUrl) => UpdateMeKeepsValid(s, auth, username, avatarUrl);
    case CreateArticle(auth, title, content) => CreateArticleKeepsValid(s, auth, title, content);
    case UpdateArticle(auth, aid, title, content) => UpdateArticleKeepsValid(s, auth, aid, title, content);
    case DeleteArticle(auth, aid) => DeleteArticleKeepsValid(s, auth, aid);
    case PostComment(auth, aid, content) => PostCommentKeepsValid(s, auth, aid, content);
    case Restart => InitDbKeepsValid(s);
  }

  lemma {:induction false} RunKeepsValid(s: Store, reqs: seq<Request>)
    requires Valid(s)
    ensures Valid(Run(s, reqs))
    decreases |reqs|
  {
    if reqs != [] {
      ApplyKeepsValid(s, reqs[0]);
      RunKeepsValid(Apply(s, reqs[0]), reqs[1..]);
    }
  }

  lemma BootValid()
    ensures Valid(Boot())
  {
    InitDbKeepsValid(Empty);
  }

  /** Every store reachable from the first start keeps the invariants: names
      are unique and stripped, stored text is stripped and non-empty, every
      comment's article exists, and every stamp is in the past. */
  lemma ReachableValid(reqs: seq<Request>)
    ensures Valid(Run(Boot(), reqs))
  {
    BootValid();
    RunKeepsValid(Boot(), reqs);
  }

  // ---- Author references ----

  /** The request acts for a registered user, or for nobody. */
  ghost predicate CallerKnown(s: Store, req: Request) {
    Caller(req).Some? ==> Caller(req).value in s.users
  }

  /** Every request in `reqs` acts for a user registered by the time it
      arrives. */
  ghost predicate CallersKnown(s: Store, reqs: seq<Request>)
    decreases |reqs|
  {
    reqs != [] ==> CallerKnown(s, reqs[0]) && CallersKnown(Apply(s, reqs[0]), reqs[1..])
  }

  lemma CreateArticleKeepsAuthorsKnown(s: Store, auth: Option<nat>, title: Option<string>, content: Option<string>)
    requires AuthorsKnown(s) && (auth.Some? ==> auth.value in s.users)
    ensures AuthorsKnown(Articles.CreateArticle(s, auth, title, content).store)
  {
    var r := Articles.CreateArticle(s, auth, title, content);
    if r.out.Created? {
      var t := r.store;
      forall a | a in t.articles && t.articles[a].userId.Some? ensures t.articles[a].userId.value in t.users {
        if a != r.out.value {
          assert t.articles[a] == s.articles[a];
        }
      }
    }
  }

  lemma UpdateArticleKeepsAuthorsKnown(s: Store, auth: Option<nat>, aid: nat, title: Option<string>, content: Option<string>)
    requires AuthorsKnown(s)
    ensures AuthorsKnown(Articles.UpdateArticle(s, auth, aid, title, content).store)
  {
    var r := Articles.UpdateArticle(s, auth, aid, title, content);
    if r.out.Ok? {
      var t := r.store;
      forall a | a in t.articles && t.articles[a].userId.Some? ensures t.articles[a].userId.value in t.users {
        if a != aid {
          assert t.articles[a] == s.articles[a];
        }
      }
    }
  }

  lemma DeleteArticleKeepsAuthorsKnown(s: Store, auth: Option<nat>, aid: nat)
    requires AuthorsKnown(s)
    ensures AuthorsKnown(Articles.DeleteArticle(s, auth, aid).store)
  {
    var r := Articles.DeleteArticle(s, auth, aid);
    if r.out.Ok? {
      var t := r.store;
      forall a | a in t.articles && t.articles[a].userId.Some? ensures t.articles[a].userId.value in t.users {
        assert t.articles[a] == s.articles[a];
      }
      forall c | c in t.comments ensures t.comments[c].userId in t.users {
        assert t.comments[c] == s.comments[c];
      }
    }
  }

  lemma PostCommentKeepsAuthorsKnown(s: Store, auth: Option<nat>, aid: nat, content: Option<string>)
    requires AuthorsKnown(s) && (auth.Some? ==> auth.value in s.users)
    ensures AuthorsKnown(Commenting.PostComment(s, auth, aid, content).store)
  {
    var r := Commenting.PostComment(s, auth, aid, content);
    if r.out.Created? {
      var t := r.store;
      forall c | c in t.comments ensures t.comments[c].userId in t.users {
        if c != r.out.value {
          assert t.comments[c] == s.comments[c];
        }
      }
    }
  }

  lemma RegisterKeepsAuthorsKnown(s: Store, username: Option<string>, password: Option<string>, salt: nat)
    requires AuthorsKnown(s)
    ensures AuthorsKnown(Accounts.Register(s, username, password, salt).store)
  {
    var r := Accounts.Register(s, username, password, salt);
    assert s.users.Keys <= r.store.users.Keys;
  }

  lemma UpdateMeKeepsAuthorsKnown(s: Store, auth: Option<nat>, username: Option<string>, avatarUrl: Option<string>)
    requires AuthorsKnown(s)
    ensures AuthorsKnown(Accounts.UpdateMe(s, auth, username, avatarUrl).store)
  {
    var r := Accounts.UpdateMe(s, auth, username, avatarUrl);
    assert s.users.Keys <= r.store.users.Keys;
  }

  /** No route removes a user, so author references stay good as long as
      tokens name registered users. */
  lemma ApplyKeepsAuthorsKnown(s: Store, req: Request)
    requires AuthorsKnown(s) && CallerKnown(s, req)
    ensures AuthorsKnown(Apply(s, req))
  {
    match req
    case Register(username, password, salt) => RegisterKeepsAuthorsKnown(s, username, password, salt);
    case UpdateMe(auth, username, avatarUrl) => UpdateMeKeepsAuthorsKnown(s, auth, username, avatarUrl);
    case CreateArticle(auth, title, content) => CreateArticleKeepsAuthorsKnown(s, auth, title, content);
    case UpdateArticle(auth, aid, title, content) => UpdateArticleKeepsAuthorsKnown(s, auth, aid, title, content);
    case DeleteArticle(auth, aid) => DeleteArticleKeepsAuthorsKnown(s, auth, aid);
    case PostComment(auth, aid, content) => PostCommentKeepsAuthorsKnown(s, auth, aid, content);
    case Restart =>
  }

  lemma {:induction false} RunKeepsAuthorsKnown(s: Store, reqs: seq<Request>)
    requires AuthorsKnown(s) && CallersKnown(s, reqs)
    ensures AuthorsKnown(Run(s, reqs))
    decreases |reqs|
  {
    if reqs != [] {
      ApplyKeepsAuthorsKnown(s, reqs[0]);
      RunKeepsAuthorsKnown(Apply(s, reqs[0]), reqs[1..]);
    }
  }

  /** As long as every token names a registered user, reading the comments
      of an existing article never fails. */
  lemma ThreadsReadable(reqs: seq<Request>, aid: nat)
    requires CallersKnown(Boot(), reqs)
    requires aid in Run(Boot(), reqs).articles
    ensures Commenting.GetComments(Run(Boot(), reqs), aid).Ok?
  {
    RunKeepsAuthorsKnown(Boot(), reqs);
    Commenting.KnownAuthorsNoServerError(Run(Boot(), reqs), aid);
  }

  /** A token for an id that has no user row (the user was never registered,
      e.g. a token from another database) can post a comment that then makes
      its article's thread unreadable. */
  lemma ForeignTokenBreaksThread(s: Store, ghostId: nat, aid: nat)
    requires ghostId !in s.users && aid in s.articles
    ensures var posted := Commenting.PostComment(s, Some(ghostId), aid, Some("hi"));
            posted.out.Created? && Commenting.GetComments(posted.store, aid).ServerError?
  {
    var posted := Commenting.PostComment(s, Some(ghostId), aid, Some("hi"));
    assert Strip("hi") == "hi" by {
      StripTrimmed("hi");
    }
    var cid := posted.out.value;
    assert posted.store.comments[cid].userId == ghostId;
    assert Commenting.HasOrphanAuthor(posted.store, aid);
  }

  lemma OtherOfPair(ks: set<nat>, ids: seq<nat>)
    requires ks == {1, 2} && multiset(ids) == multiset(ks) && |ids| > 0 && ids[0] == 2
    ensures ids == [2, 1]
  {
    assert multiset(ks) == multiset{1, 2};
    assert |ids| == 2 by {
      assert |multiset(ids)| == 2;
    }
    assert ids == [ids[0]] + [ids[1]];
    assert multiset(ids) == multiset{2, ids[1]};
  }

  /** A store holding articles 1 and 2 only, 2 the newer, lists 2 then 1. */
  lemma ListsPairNewestFirst(s: Store)
    requires s.articles.Keys == {1, 2} && s.articles[1].createdAt < s.articles[2].createdAt
    ensures var rows := Listing.ListArticles(s);
            && |rows| == 2 && rows[0].id == 2 && rows[1].id == 1
            && Listing.Summarizes(s, rows[0]) && Listing.Summarizes(s, rows[1])
  {
    var rows := Listing.ListArticles(s);
    Listing.NewestHeadsList(s, 2);
    OtherOfPair(s.articles.Keys, Listing.SummaryIds(rows));
  }

  /** On the first start, the public list shows both demo articles, the
      later one first, with no author. */
  lemma BootListing()
    ensures var rows := Listing.ListArticles(Boot());
            && |rows| == 2
            && rows[0].id == 2 && rows[0].title == PlanTitle && rows[0].author.None?
            && rows[1].id == 1 && rows[1].title == WelcomeTitle && rows[1].author.None?
  {
    ListsPairNewestFirst(Boot());
  }
}
