/** The two article lists of `backend/app.py`: every article
    (`GET /api/articles`) and the caller's own (`GET /api/me/articles`), both
    newest first. */
module Listing {
  import opened Common
  import opened Text
  import opened Models
  import Ordering
  import Articles

  /** One entry of the public list, built by `brief`. */
  datatype Summary = Summary(id: nat, title: string, excerpt: string, createdAt: nat, author: Option<string>)

  /** One entry of the caller's own list. */
  datatype Mine = Mine(id: nat, title: string, createdAt: nat)

  /** Creation stamp of every article, keyed by article id. */
  function ArticleStamps(articles: map<nat, Article>): (m: map<nat, nat>)
    ensures m.Keys == articles.Keys
    ensures forall a :: a in m ==> m[a] == articles[a].createdAt
  {
    map a | a in articles :: articles[a].createdAt
  }

  /** The ids of the articles owned by `uid`. */
  function OwnedBy(articles: map<nat, Article>, uid: nat): (ks: set<nat>)
    ensures forall a :: a in ks <==> a in articles && articles[a].userId == Some(uid)
  {
    set a | a in articles && articles[a].userId == Some(uid)
  }

  function SummaryIds(rows: seq<Summary>): (ids: seq<nat>)
    ensures |ids| == |rows|
    ensures forall i :: 0 <= i < |rows| ==> ids[i] == rows[i].id
  {
    seq(|rows|, i requires 0 <= i < |rows| => rows[i].id)
  }

  function MineIds(rows: seq<Mine>): (ids: seq<nat>)
    ensures |ids| == |rows|
    ensures forall i :: 0 <= i < |rows| ==> ids[i] == rows[i].id
  {
    seq(|rows|, i requires 0 <= i < |rows| => rows[i].id)
  }

  /** `v` is how article `v.id` is listed: its title, the excerpt of its
      content, its stamp, and its owner's name when the owner row exists. */
  ghost predicate Summarizes(s: Store, v: Summary) {
    && v.id in s.articles
    && v.title == s.articles[v.id].title
    && v.excerpt == Excerpt(s.articles[v.id].content)
    && v.createdAt == s.articles[v.id].createdAt
    && v.author == AuthorName(s.users, s.articles[v.id].userId)
  }

  /** `v` is how article `v.id`, owned by `uid`, is listed to its owner. */
  ghost predicate ListsOwn(s: Store, uid: nat, v: Mine) {
    && v.id in s.articles
    && s.articles[v.id].userId == Some(uid)
    && v.title == s.articles[v.id].title
    && v.createdAt == s.articles[v.id].createdAt
  }

  function RenderSummaries(s: Store, ids: seq<nat>): (rows: seq<Summary>)
    requires forall i :: 0 <= i < |ids| ==> ids[i] in s.articles
    ensures SummaryIds(rows) == ids
    ensures forall i :: 0 <= i < |rows| ==> Summarizes(s, rows[i])
  {
    var rows := seq(|ids|, i requires 0 <= i < |ids| =>
      var a := s.articles[ids[i]];
      Summary(ids[i], a.title, Excerpt(a.content), a.createdAt, AuthorName(s.users, a.userId)));
    assert SummaryIds(rows) == ids;
    rows
  }

  function RenderMine(s: Store, uid: nat, ids: seq<nat>): (rows: seq<Mine>)
    requires forall i :: 0 <= i < |ids| ==> ids[i] in s.articles && s.articles[ids[i]].userId == Some(uid)
    ensures MineIds(rows) == ids
    ensures forall i :: 0 <= i < |rows| ==> ListsOwn(s, uid, rows[i])
  {
    var rows := seq(|ids|, i requires 0 <= i < |ids| =>
      var a := s.articles[ids[i]];
      Mine(ids[i], a.title, a.createdAt));
    assert MineIds(rows) == ids;
    rows
  }

  /** `GET /api/articles`: every article once, newest first. */
  function ListArticles(s: Store): (rows: seq<Summary>)
    ensures multiset(SummaryIds(rows)) == multiset(s.articles.Keys)
    ensures forall i :: 0 <= i < |rows| ==> Summarizes(s, rows[i])
    ensures forall i, j :: 0 <= i < j < |rows| ==> rows[i].createdAt >= rows[j].createdAt
  {
    var stamps := ArticleStamps(s.articles);
    var ids := Ordering.Arrange(stamps, true, s.articles.Keys);
    Ordering.ArrangeMembers(stamps, true, s.articles.Keys);
    var rows := RenderSummaries(s, ids);
    assert forall i :: 0 <= i < |rows| ==> rows[i].createdAt == stamps[ids[i]];
    rows
  }

  /** `GET /api/me/articles`: 401 without an identity; otherwise the articles
      whose owner is the caller, newest first. Whether the caller's user row
      still exists is not checked. */
  function MyArticles(s: Store, auth: Option<nat>): (r: Outcome<seq<Mine>>)
    ensures r.Unauthorized? <==> auth.None?
    ensures r.Ok? || r.Unauthorized?
    ensures r.Ok? ==> multiset(MineIds(r.value)) == multiset(OwnedBy(s.articles, auth.value))
    ensures r.Ok? ==> forall i :: 0 <= i < |r.value| ==> ListsOwn(s, auth.value, r.value[i])
    ensures r.Ok? ==>
              forall i, j :: 0 <= i < j < |r.value| ==> r.value[i].createdAt >= r.value[j].createdAt
  {
    match auth
    case None => Unauthorized
    case Some(uid) =>
      var stamps := ArticleStamps(s.articles);
      var owned := OwnedBy(s.articles, uid);
      var ids := Ordering.Arrange(stamps, true, owned);
      Ordering.ArrangeMembers(stamps, true, owned);
      var rows := RenderMine(s, uid, ids);
      assert forall i :: 0 <= i < |rows| ==> rows[i].createdAt == stamps[ids[i]];
      Ok(rows)
  }

  // ---- Properties across calls ----

  /** The caller's own list names exactly the articles of the public list
      that the caller owns. */
  lemma MineWithinList(s: Store, uid: nat, id: nat)
    ensures MyArticles(s, Some(uid)).Ok?
    ensures id in MineIds(MyArticles(s, Some(uid)).value) <==>
              id in SummaryIds(ListArticles(s)) && s.articles[id].userId == Some(uid)
  {
    var mine := MineIds(MyArticles(s, Some(uid)).value);
    var all := SummaryIds(ListArticles(s));
    assert id in mine <==> id in multiset(mine);
    assert id in all <==> id in multiset(all);
  }

  /** An article stamped later than every other one heads the public list. */
  lemma NewestHeadsList(t: Store, aid: nat)
    requires aid in t.articles
    requires forall a :: a in t.articles && a != aid ==> t.articles[a].createdAt < t.articles[aid].createdAt
    ensures var rows := ListArticles(t);
            |rows| > 0 && rows[0].id == aid && Summarizes(t, rows[0])
  {
    var rows := ListArticles(t);
    var ids := SummaryIds(rows);
    var stamps := ArticleStamps(t.articles);
    forall i | 0 <= i < |rows|
      ensures ids[i] in stamps && stamps[ids[i]] == rows[i].createdAt
      ensures ids[i] != aid ==> stamps[ids[i]] < stamps[aid]
    {
      assert Summarizes(t, rows[i]);
    }
    assert Ordering.SortedByStamp(stamps, true, ids);
    assert aid in multiset(t.articles.Keys);
    Ordering.LatestAtNewestEnd(stamps, true, ids, aid);
    assert Summarizes(t, rows[0]);
  }

  /** An article just created heads the public list, with its stripped title
      and the excerpt of its stripped content. */
  lemma CreateThenListed(s: Store, uid: nat, title: string, content: string)
    requires StampsBeforeClock(s)
    requires Strip(title) != [] && Strip(content) != []
    ensures var created := Articles.CreateArticle(s, Some(uid), Some(title), Some(content));
            var rows := ListArticles(created.store);
            && created.out.Created?
            && |rows| > 0
            && rows[0].id == created.out.value
            && rows[0].title == Strip(title)
            && rows[0].excerpt == Excerpt(Strip(content))
  {
    var created := Articles.CreateArticle(s, Some(uid), Some(title), Some(content));
    var t := created.store;
    var aid := created.out.value;
    forall a | a in t.articles && a != aid
      ensures t.articles[a].createdAt < t.articles[aid].createdAt
    {
      assert a in s.articles;
    }
    NewestHeadsList(t, aid);
  }
}
