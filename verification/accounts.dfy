/** The account routes of `backend/app.py`: `/api/register`, `/api/login` and
    `/api/me` (GET and PATCH). Inputs are the JSON fields, already extracted;
    `auth` is the identity `@jwt_required()` resolved from the bearer token,
    None when the token is missing or invalid. */
module Accounts {
  import opened Common
  import opened Text
  import opened Models
  import Ids

  /** What `/api/login` returns: the token's identity and the stored name. */
  datatype Session = Session(userId: nat, username: string)

  /** What `GET /api/me` returns. */
  datatype Profile = Profile(id: nat, username: string, avatarUrl: Option<string>, createdAt: nat)

  /** `POST /api/register`. The username is stripped, the password is not;
      either one empty is a 400, a taken name a 409; otherwise one user is
      added, under the stripped name, with no avatar. */
  function Register(s: Store, username: Option<string>, password: Option<string>, salt: nat): (r: Step<()>)
    ensures var name := Strip(OrEmpty(username));
            r.out.BadRequest? <==> name == [] || OrEmpty(password) == []
    ensures var name := Strip(OrEmpty(username));
            r.out.Conflict? <==> name != [] && OrEmpty(password) != [] && NameTaken(s.users, name)
    ensures r.out.BadRequest? || r.out.Conflict? || r.out.Created?
    ensures !r.out.Created? ==> r.store == s
    ensures r.out.Created? ==>
              var id := Ids.NextId(s.users.Keys);
              var name := Strip(OrEmpty(username));
              && id !in s.users
              && r.store.users.Keys == s.users.Keys + {id}
              && (forall u :: u in s.users ==> r.store.users[u] == s.users[u])
              && r.store.users[id].username == name
              && !NameTaken(s.users, name)
              && r.store.users[id].avatarUrl.None?
              && r.store.users[id].createdAt == s.clock
              && (forall q :: CheckPassword(r.store.users[id].passwordHash, q) <==> q == OrEmpty(password))
              && r.store.articles == s.articles && r.store.comments == s.comments
              && r.store.clock == s.clock + 1
  {
    var name := Strip(OrEmpty(username));
    var password := OrEmpty(password);
    if name == [] || password == [] then Step(BadRequest, s)
    else if UserNamed(s.users, name).Some? then Step(Conflict, s)
    else
      var id := Ids.NextId(s.users.Keys);
      var user := User(name, SetPassword(password, salt), s.clock, None);
      InsertFresh(s.users, id, user);
      Step(Created(()), s.(users := s.users[id := user], clock := s.clock + 1))
  }

  /** `POST /api/login`. The username is looked up exactly as sent, without
      stripping. An unknown name and a wrong password give the same 401. */
  function Login(s: Store, username: Option<string>, password: Option<string>): (r: Outcome<Session>)
    ensures r.Ok? || r.Unauthorized?
    ensures r.Ok? ==>
              && r.value.userId in s.users
              && r.value.username == OrEmpty(username)
              && s.users[r.value.userId].username == OrEmpty(username)
              && CheckPassword(s.users[r.value.userId].passwordHash, OrEmpty(password))
    ensures UniqueNames(s.users) ==>
              (r.Ok? <==> exists id :: id in s.users && s.users[id].username == OrEmpty(username)
                                      && CheckPassword(s.users[id].passwordHash, OrEmpty(password)))
  {
    var name := OrEmpty(username);
    match UserNamed(s.users, name)
    case None => Unauthorized
    case Some(id) =>
      if !CheckPassword(s.users[id].passwordHash, OrEmpty(password)) then Unauthorized
      else Ok(Session(id, s.users[id].username))
  }

  /** `GET /api/me`. */
  function GetMe(s: Store, auth: Option<nat>): (r: Outcome<Profile>)
    ensures auth.None? <==> r.Unauthorized?
    ensures auth.Some? && auth.value !in s.users <==> r.NotFound?
    ensures r.Ok? || r.Unauthorized? || r.NotFound?
    ensures r.Ok? ==>
              var u := s.users[auth.value];
              r.value == Profile(auth.value, u.username, u.avatarUrl, u.createdAt)
  {
    match auth
    case None => Unauthorized
    case Some(uid) =>
      if uid !in s.users then NotFound
      else
        var u := s.users[uid];
        Ok(Profile(uid, u.username, u.avatarUrl, u.createdAt))
  }

  /** `(data.get('avatar_url') or '').strip() or None`. */
  function AvatarField(field: Option<string>): (r: Option<string>)
    ensures r.None? <==> Strip(OrEmpty(field)) == []
    ensures r.Some? ==> r.value == Strip(OrEmpty(field)) && Clean(r.value)
  {
    var url := Strip(OrEmpty(field));
    if url == [] then None else Some(url)
  }

  /** `PATCH /api/me`. A non-empty stripped username replaces the current
      one unless another user holds it (409); an empty one leaves the name
      alone. The avatar is always overwritten, cleared when the field is
      missing or blank. */
  function UpdateMe(s: Store, auth: Option<nat>, username: Option<string>, avatarUrl: Option<string>): (r: Step<()>)
    ensures r.out.Unauthorized? <==> auth.None?
    ensures r.out.NotFound? <==> auth.Some? && auth.value !in s.users
    ensures var name := Strip(OrEmpty(username));
            r.out.Conflict? <==> auth.Some? && auth.value in s.users && name != []
                                 && name != s.users[auth.value].username && NameTaken(s.users, name)
    ensures r.out.Ok? || r.out.Unauthorized? || r.out.NotFound? || r.out.Conflict?
    ensures !r.out.Ok? ==> r.store == s
    ensures r.out.Conflict? ==>
              exists other :: other in s.users && other != auth.value
                           && s.users[other].username == Strip(OrEmpty(username))
    ensures r.out.Ok? ==>
              var uid := auth.value;
              var name := Strip(OrEmpty(username));
              && uid in s.users
              && r.store.users.Keys == s.users.Keys
              && (forall other :: other in s.users && other != uid ==> r.store.users[other] == s.users[other])
              && r.store.users[uid].username == (if name == [] then s.users[uid].username else name)
              && r.store.users[uid].avatarUrl == AvatarField(avatarUrl)
              && r.store.users[uid].passwordHash == s.users[uid].passwordHash
              && r.store.users[uid].createdAt == s.users[uid].createdAt
              && r.store.articles == s.articles && r.store.comments == s.comments
              && r.store.clock == s.clock
  {
    match auth
    case None => Step(Unauthorized, s)
    case Some(uid) =>
      if uid !in s.users then Step(NotFound, s)
      else
        var u := s.users[uid];
        var name := Strip(OrEmpty(username));
        var avatar := AvatarField(avatarUrl);
        if name != [] && name != u.username && UserNamed(s.users, name).Some? then Step(Conflict, s)
        else
          var u' := u.(username := if name != [] then name else u.username, avatarUrl := avatar);
          Overwrite(s.users, uid, u');
          Step(Ok(()), s.(users := s.users[uid := u']))
  }

  // ---- Properties across calls ----

  /** Right after a registration, the new id is the only one holding the
      registered (stripped) name. */
  lemma RegisteredNameOwner(s: Store, name: string, password: string, salt: nat)
    requires Register(s, Some(name), Some(password), salt).out.Created?
    ensures var t := Register(s, Some(name), Some(password), salt).store;
            UserNamed(t.users, Strip(name)) == Some(Ids.NextId(s.users.Keys))
  {
    var t := Register(s, Some(name), Some(password), salt).store;
    var id := Ids.NextId(s.users.Keys);
    var found := UserNamed(t.users, Strip(name));
    assert t.users[id].username == Strip(name);
    assert found.Some?;
  }

  /** A user registered with a name that has no surrounding whitespace can log
      in with the same name and password, and gets the new id back. */
  lemma RegisterThenLogin(s: Store, name: string, password: string, salt: nat)
    requires Strip(name) == name
    requires Register(s, Some(name), Some(password), salt).out.Created?
    ensures var t := Register(s, Some(name), Some(password), salt).store;
            var r := Login(t, Some(name), Some(password));
            r.Ok? && r.value == Session(Ids.NextId(s.users.Keys), name)
  {
    RegisteredNameOwner(s, name, password, salt);
  }

  /** After registration, only the registered password opens the account. */
  lemma RegisterThenWrongPassword(s: Store, name: string, password: string, other: string, salt: nat)
    requires Strip(name) == name
    requires Register(s, Some(name), Some(password), salt).out.Created?
    requires other != password
    ensures var t := Register(s, Some(name), Some(password), salt).store;
            Login(t, Some(name), Some(other)).Unauthorized?
  {
    RegisteredNameOwner(s, name, password, salt);
  }

  /** Registering the same name a second time is a conflict. */
  lemma RegisterTwiceConflicts(s: Store, name: string, p1: string, p2: string, salt1: nat, salt2: nat)
    requires Register(s, Some(name), Some(p1), salt1).out.Created?
    requires p2 != []
    ensures var t := Register(s, Some(name), Some(p1), salt1).store;
            var second := Register(t, Some(name), Some(p2), salt2);
            second.out.Conflict? && second.store == t
  {
    var t := Register(s, Some(name), Some(p1), salt1).store;
    assert t.users[Ids.NextId(s.users.Keys)].username == Strip(name);
  }

  /** Login does not strip: when every stored name is stripped, a name sent
      with surrounding whitespace never logs in. */
  lemma LoginDoesNotStrip(s: Store, name: string, password: Option<string>)
    requires NamesClean(s.users)
    requires Strip(name) != name
    ensures Login(s, Some(name), password).Unauthorized?
  {
    if Login(s, Some(name), password).Ok? {
      var uid := Login(s, Some(name), password).value.userId;
      assert Clean(name);
      StripTrimmed(name);
    }
  }

  /** Under unique names, a non-empty stripped name held by another user is
      exactly what makes a profile update a conflict. */
  lemma UpdateMeConflictWhenTaken(s: Store, uid: nat, username: Option<string>, avatarUrl: Option<string>)
    requires UniqueNames(s.users) && uid in s.users
    requires Strip(OrEmpty(username)) != []
    ensures UpdateMe(s, Some(uid), username, avatarUrl).out.Conflict? <==>
              exists other :: other in s.users && other != uid
                           && s.users[other].username == Strip(OrEmpty(username))
  {
    var name := Strip(OrEmpty(username));
    if other :| other in s.users && other != uid && s.users[other].username == name {
      assert name != s.users[uid].username;
      assert UserNamed(s.users, name).Some?;
    }
  }

  /** A profile update that asks for what the profile already holds leaves
      the store as it is. */
  lemma UpdateMeNoChange(t: Store, uid: nat, username: Option<string>, avatarUrl: Option<string>)
    requires uid in t.users
    requires Strip(OrEmpty(username)) == [] || t.users[uid].username == Strip(OrEmpty(username))
    requires t.users[uid].avatarUrl == AvatarField(avatarUrl)
    ensures var r := UpdateMe(t, Some(uid), username, avatarUrl);
            r.out.Ok? && r.store == t
  {
    var u := t.users[uid];
    var name := Strip(OrEmpty(username));
    var u' := u.(username := if name != [] then name else u.username, avatarUrl := AvatarField(avatarUrl));
    assert u' == u;
    assert t.users[uid := u'] == t.users;
  }

  /** Sending the same profile update twice changes nothing the second time. */
  lemma UpdateMeIdempotent(s: Store, auth: Option<nat>, username: Option<string>, avatarUrl: Option<string>)
    requires UpdateMe(s, auth, username, avatarUrl).out.Ok?
    ensures var t := UpdateMe(s, auth, username, avatarUrl).store;
            var again := UpdateMe(t, auth, username, avatarUrl);
            again.out.Ok? && again.store == t
  {
    var t := UpdateMe(s, auth, username, avatarUrl).store;
    UpdateMeNoChange(t, auth.value, username, avatarUrl);
  }

  /** After a successful profile update, the profile shows the new avatar
      and, when one was sent, the new name. */
  lemma UpdateMeThenGetMe(s: Store, uid: nat, username: Option<string>, avatarUrl: Option<string>)
    requires UpdateMe(s, Some(uid), username, avatarUrl).out.Ok?
    ensures var t := UpdateMe(s, Some(uid), username, avatarUrl).store;
            var me := GetMe(t, Some(uid));
            && me.Ok?
            && me.value.avatarUrl == AvatarField(avatarUrl)
            && (Strip(OrEmpty(username)) != [] ==> me.value.username == Strip(OrEmpty(username)))
            && (Strip(OrEmpty(username)) == [] ==> me.value.username == s.users[uid].username)
  {
  }
}
