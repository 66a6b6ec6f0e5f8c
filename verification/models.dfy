/** The three tables of `backend/models.py` as immutable records, the store
    that holds them, the password-hash pair and the article-to-comments
    cascade. */
module Models {
  import opened Common
  import opened Text
  import Ids

  // ---- Password hashing ----

  /** A salted password hash, modelled symbolically: the stored value is the
      term `Hashed(salt, raw)`, which is what an ideal, collision-free hash
      gives. The check rebuilds the term with the stored salt and compares.
      That the real function is one-way is not modelled. */
  datatype PasswordHash = Hashed(salt: nat, raw: string)

  /** `check_password_hash(self.password_hash, raw_password)`. */
  predicate CheckPassword(h: PasswordHash, raw: string) {
    Hashed(h.salt, raw) == h
  }

  /** `generate_password_hash(raw_password)` with the random salt supplied by
      the caller: the stored hash accepts the password it was made from and no
      other. */
  function SetPassword(raw: string, salt: nat): (h: PasswordHash)
    ensures h.salt == salt
    ensures CheckPassword(h, raw)
    ensures forall q :: CheckPassword(h, q) ==> q == raw
  {
    Hashed(salt, raw)
  }

  // ---- Records ----

  /** A row of `users`; `username` is unique and not null. */
  datatype User = User(username: string, passwordHash: PasswordHash, createdAt: nat, avatarUrl: Option<string>)

  /** A row of `articles`; `userId` is None for an article without an owner. */
  datatype Article = Article(title: string, content: string, createdAt: nat, userId: Option<nat>)

  /** A row of `comments`; both foreign keys are required. */
  datatype Comment = Comment(articleId: nat, userId: nat, content: string, createdAt: nat)

  /** The database, plus the logical clock that stands in for
      `datetime.utcnow`: every inserted row is stamped with `clock`, which
      then advances. */
  datatype Store = Store(
    users: map<nat, User>,
    articles: map<nat, Article>,
    comments: map<nat, Comment>,
    clock: nat)

  /** The new store of a handler together with its answer. */
  datatype Step<+T> = Step(out: Outcome<T>, store: Store)

  // ---- Schema invariants ----

  ghost predicate UniqueNames(users: map<nat, User>) {
    forall i, j :: i in users && j in users && i != j ==> users[i].username != users[j].username
  }

  /** A non-empty string with no surrounding whitespace: what every handler
      stores after `strip()` and its emptiness check. */
  ghost predicate Clean(t: string) {
    t != [] && Trimmed(t)
  }

  ghost predicate NamesClean(users: map<nat, User>) {
    forall u :: u in users ==> Clean(users[u].username)
  }

  ghost predicate ArticlesClean(articles: map<nat, Article>) {
    forall a :: a in articles ==> Clean(articles[a].title) && Clean(articles[a].content)
  }

  ghost predicate CommentsClean(comments: map<nat, Comment>) {
    forall c :: c in comments ==> Clean(comments[c].content)
  }

  /** Every comment's article exists. */
  ghost predicate CommentsAttached(s: Store) {
    forall c :: c in s.comments ==> s.comments[c].articleId in s.articles
  }

  /** Every row was stamped before the current clock. */
  ghost predicate StampsBeforeClock(s: Store) {
    && (forall u :: u in s.users ==> s.users[u].createdAt < s.clock)
    && (forall a :: a in s.articles ==> s.articles[a].createdAt < s.clock)
    && (forall c :: c in s.comments ==> s.comments[c].createdAt < s.clock)
  }

  /** The invariants every reachable store keeps, whoever the caller claims
      to be. */
  ghost predicate Valid(s: Store) {
    && UniqueNames(s.users)
    && NamesClean(s.users)
    && ArticlesClean(s.articles)
    && CommentsClean(s.comments)
    && CommentsAttached(s)
    && StampsBeforeClock(s)
  }

  /** Every author reference points at an existing user. SQLite does not
      enforce these foreign keys, so this holds only as long as every
      authenticated identity names a registered user. */
  ghost predicate AuthorsKnown(s: Store) {
    && (forall a :: a in s.articles && s.articles[a].userId.Some? ==> s.articles[a].userId.value in s.users)
    && (forall c :: c in s.comments ==> s.comments[c].userId in s.users)
  }

  // ---- Row writes ----

  /** Inserting under a fresh key adds exactly that key and keeps every
      other row. */
  lemma InsertFresh<V>(m: map<nat, V>, k: nat, v: V)
    requires k !in m
    ensures m[k := v].Keys == m.Keys + {k}
    ensures forall a :: a in m ==> m[k := v][a] == m[a]
  {
  }

  /** Overwriting an existing row keeps the key set and every other row. */
  lemma Overwrite<V>(m: map<nat, V>, k: nat, v: V)
    requires k in m
    ensures m[k := v].Keys == m.Keys
    ensures forall a :: a in m && a != k ==> m[k := v][a] == m[a]
  {
  }

  // ---- Lookups ----

  predicate NameTaken(users: map<nat, User>, name: string) {
    exists id :: id in users && users[id].username == name
  }

  /** `User.query.filter_by(username=name).first()`. */
  function UserNamed(users: map<nat, User>, name: string): (r: Option<nat>)
    ensures r.None? <==> !NameTaken(users, name)
    ensures r.Some? ==> r.value in users && users[r.value].username == name
    ensures r.Some? && UniqueNames(users) ==>
              forall id :: id in users && users[id].username == name ==> id == r.value
  {
    var ids := set id | id in users && users[id].username == name;
    assert NameTaken(users, name) ==> ids != {} by {
      if NameTaken(users, name) {
        var id :| id in users && users[id].username == name;
        assert id in ids;
      }
    }
    if ids == {} then None else Some(Ids.Max(ids))
  }

  /** The ids of the comments on article `aid`. */
  function CommentsOn(comments: map<nat, Comment>, aid: nat): (cs: set<nat>)
    ensures forall c :: c in cs <==> c in comments && comments[c].articleId == aid
  {
    set c | c in comments && comments[c].articleId == aid
  }

  /** `a.user.username if a.user else None`: the owner's name when the owner
      row exists. */
  function AuthorName(users: map<nat, User>, owner: Option<nat>): (r: Option<string>)
    ensures r.Some? <==> owner.Some? && owner.value in users
    ensures r.Some? ==> r.value == users[owner.value].username
  {
    if owner.Some? && owner.value in users then Some(users[owner.value].username) else None
  }

  /** Under unique names, the author name shown for an article leads back to
      its owner through the name lookup. */
  lemma AuthorNameFindsOwner(users: map<nat, User>, owner: Option<nat>)
    requires UniqueNames(users)
    ensures AuthorName(users, owner).Some? ==> UserNamed(users, AuthorName(users, owner).value) == owner
  {
  }

  /** `db.session.delete(article)` with `cascade='all, delete'` on
      `Article.comments`: the article goes, and with it exactly the comments
      attached to it. */
  function DeleteCascade(s: Store, aid: nat): (t: Store)
    ensures t.articles.Keys == s.articles.Keys - {aid}
    ensures forall a :: a in t.articles ==> t.articles[a] == s.articles[a]
    ensures forall c :: c in t.comments <==> c in s.comments && s.comments[c].articleId != aid
    ensures forall c :: c in t.comments ==> t.comments[c] == s.comments[c]
    ensures t.users == s.users && t.clock == s.clock
    ensures CommentsOn(t.comments, aid) == {}
  {
    var doomed := CommentsOn(s.comments, aid);
    s.(articles := s.articles - {aid}, comments := s.comments - doomed)
  }

  /** Deleting an article keeps every remaining comment attached. */
  lemma DeleteCascadeKeepsAttached(s: Store, aid: nat)
    requires CommentsAttached(s)
    ensures CommentsAttached(DeleteCascade(s, aid))
  {
  }
}
