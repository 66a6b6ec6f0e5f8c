# Mini blog backend — a Dafny model

This project models the Flask backend of a small blog (`backend/app.py` and
`backend/models.py`). Users register and log in, then publish articles that
anyone can read and comment on.

Each request handler is read as one atomic transition of an abstract
database. The `Store` holds three tables of rows keyed by id (`users`,
`articles`, `comments`) and a logical clock that stands in for
`datetime.utcnow`. A handler is a pure function from the store, the identity
resolved from the bearer token (`auth: Option<nat>`) and the JSON fields
(`Option<string>`) to a `Step`. A `Step` holds the HTTP outcome and the new
store. Read-only routes are functions from the store to an outcome.

Modules, one per concern:

| file | module | covers |
|---|---|---|
| common.dfy | `Common` | `Option`, and the HTTP `Outcome` (200, 201, 400, 401, 403, 404, 409, 500) |
| text.dfy | `Text` | `x or ''`, Python's `str.strip()` with Python's whitespace set, the 120-character excerpt |
| ids.dfy | `Ids` | SQLite rowid assignment: one more than the largest id in the table, 1 for an empty table |
| ordering.dfy | `Ordering` | `ORDER BY created_at`, ascending or descending, as a function of the rows |
| models.dfy | `Models` | the three tables, the password hash pair, lookups, the article→comments cascade, the schema invariants |
| accounts.dfy | `Accounts` | `register`, `login`, `GET /api/me`, `PATCH /api/me` |
| articles.dfy | `Articles` | `create_article`, `article_detail`, `update_article`, `delete_article` |
| comments.dfy | `Commenting` | `get_comments`, `post_comment` |
| listing.dfy | `Listing` | `list_articles` with `brief`, and `my_articles` |
| blog.dfy | `Blog` | `init_db`, the request state machine, the invariants kept on every reachable store |

Behaviour reproduced as the code has it:
- `register` strips the username but not the password. The emptiness check is on the raw password, so a password of only spaces is accepted.
- `login` looks the username up without stripping it. It gives the same 401 for an unknown name and a wrong password.
- `update_me` always overwrites `avatar_url`, clearing it when the field is missing or blank.
- On article update and delete, the ownership check (403) comes before input validation (400).
- An article without an owner, such as the two demo articles, can be neither updated nor deleted.
- On protected routes the token check runs first, so a missing identity is a 401 before any 404.
- Ids are SQLite rowids without `AUTOINCREMENT`, so the id of a deleted newest row is handed out again.
- `get_comments` raises, which is a 500, when a comment's user row does not exist. SQLite does not enforce foreign keys by default, so a token for an id with no user row can create such a comment. `Blog.ForeignTokenBreaksThread` shows how. `Blog.ThreadsReadable` shows that this cannot happen while every token names a registered user.

## Model

| member | source | states |
|---|---|---|
| Text.Strip | backend/app.py:53 | the result has no whitespace (Python's `isspace` set) at either end, and it is empty exactly when the input is all whitespace |
| Text.StripSplits | backend/app.py:53 | the input is always the stripped text with whitespace before and after, so `strip()` removes padding and nothing else |
| Text.StripPadded | backend/app.py:53 | stripping a whitespace-padded string that has no surrounding whitespace of its own gives back exactly that string |
| Text.StripIdempotent | backend/app.py:53 | stripping twice is the same as stripping once |
| Text.Excerpt | backend/app.py:84-85 | the excerpt has at most 123 characters. It is the body itself when the body has at most 120; otherwise it has 123 characters ending in `...`. It always starts with the first min(length, 120) characters of the body |
| Text.ExcerptDependsOnHead | backend/app.py:85 | two bodies longer than 120 characters with the same first 120 characters have the same excerpt |
| Text.ExcerptHidesTruncation | backend/app.py:85 | a 123-character body ending in `...` is its own excerpt, so an excerpt does not show whether it was cut |
| Ids.NextId | backend/models.py:11 | a new id is positive, unused and above every existing id. It is one more than the largest id, or 1 for an empty table |
| Ordering.Arrange | backend/app.py:82 | the ids are listed once each (a permutation of the selected set), ordered by creation stamp in the requested direction |
| Ordering.LatestAtNewestEnd | backend/app.py:82 | in a list sorted by stamp, an id stamped later than every other listed id comes first when the list runs newest first and last when it runs oldest first |
| Ordering.ArrangeMembers | backend/app.py:220 | an arranged list has as many entries as the selected set, and the same members |
| Models.SetPassword | backend/models.py:19-23 | the stored hash keeps the given salt and accepts the password it was made from and no other |
| Models.UserNamed | backend/app.py:58 | `filter_by(username=...).first()`: no result exactly when no user has the name. A result is a user with that name, and the only one when names are unique |
| Models.AuthorName | backend/app.py:91 | the author's name is present exactly when the article has an owner id and that user row exists, and it is that user's name |
| Models.AuthorNameFindsOwner | backend/app.py:91 | under unique names, looking the shown author name up (as `User.query.filter_by(username=...)` does at `backend/app.py:58`) gives back exactly the article's owner id |
| Models.DeleteCascade | backend/models.py:34 | the article is removed, and exactly the comments attached to it. Every other article and comment, the users and the clock are unchanged |
| Models.DeleteCascadeKeepsAttached | backend/models.py:39 | after the cascade every remaining comment's article still exists |
| Accounts.Register | backend/app.py:50-65 | 400 exactly when the stripped name or the raw password is empty. 409 exactly when both are non-empty and the name is taken. Nothing changes on error. On 201 exactly one user is added, under the next rowid, with the stripped name, no avatar, the current stamp, and a hash that accepts exactly the sent password |
| Accounts.Login | backend/app.py:67-78 | only 200 or 401. On 200 the session names a user whose stored name equals the unstripped sent name and whose hash accepts the password. With unique names, 200 exactly when such a user exists |
| Accounts.GetMe | backend/app.py:110-120 | 401 exactly without identity, 404 exactly when the identity has no user row, otherwise that user's profile |
| Accounts.AvatarField | backend/app.py:129 | the avatar is absent exactly when the stripped field is empty, else it is the stripped field, non-empty and without surrounding whitespace |
| Accounts.UpdateMe | backend/app.py:122-136 | 401 exactly without identity, 404 exactly for an identity with no user row. 409 exactly when the stripped name is non-empty, differs from the caller's current name and is held by another user. Otherwise 200. Nothing changes on error. On 200 only the caller's row changes: the name becomes the stripped name, or stays when that is empty; the avatar is always overwritten; hash and stamp are kept |
| Accounts.RegisteredNameOwner | backend/app.py:58-64 | right after registration the new id is the user the name lookup finds |
| Accounts.RegisterThenLogin | backend/app.py:61-78 | a user registered with an unpadded name logs in with that name and password and gets the new id back |
| Accounts.RegisterThenWrongPassword | backend/app.py:73-75 | after registration any other password gives 401 |
| Accounts.RegisterTwiceConflicts | backend/app.py:58-59 | registering the same name again with a non-empty password is a 409 and changes nothing |
| Accounts.LoginDoesNotStrip | backend/app.py:70 | when stored names are stripped, a name sent with surrounding whitespace never logs in |
| Accounts.UpdateMeConflictWhenTaken | backend/app.py:130-132 | with unique names, a non-empty stripped name gives 409 exactly when another user holds it |
| Accounts.UpdateMeNoChange | backend/app.py:128-135 | an update asking for what the profile already holds succeeds and leaves the store equal |
| Accounts.UpdateMeIdempotent | backend/app.py:122-136 | repeating a successful profile update changes nothing |
| Accounts.UpdateMeThenGetMe | backend/app.py:130-134 | after a successful update the profile shows the new avatar, and the new name if one was sent, the old name otherwise |
| Articles.CreateArticle | backend/app.py:95-107 | 401 exactly without identity, then 400 exactly when the stripped title or content is empty, and 201 otherwise. Nothing changes on error. On 201 exactly one article is added under the next rowid, with the stripped fields, the caller as owner and the current stamp |
| Articles.ArticleDetail | backend/app.py:177-187 | 404 exactly for a missing article. Otherwise its fields, with author name and author id present together and only when the owner row exists |
| Articles.UpdateArticle | backend/app.py:189-204 | 401, then 404, then 403 unless the caller owns it, then 400 exactly for an empty stripped field. An owner with two non-empty stripped fields always gets 200. Nothing changes on error. On 200 only that article's title and content change |
| Articles.DeleteArticle | backend/app.py:206-215 | 401, then 404, then 403 unless the caller owns it, else 200. On 200 the article and exactly its comments go and nothing else changes |
| Articles.OwnerlessArticleIsFrozen | backend/app.py:194-195 | an article without an owner is never updated or deleted, whoever asks, and the store stays as it is |
| Articles.OnlyOwnerWrites | backend/app.py:211-212 | a successful update or delete was sent by the article's owner |
| Articles.DeleteThenDetailNotFound | backend/app.py:213-215 | after a delete the article reads as 404 and no comment points at it |
| Articles.CreatedArticleHasNoComments | backend/models.py:34 | on a store whose comments all point at existing articles (every reachable store), a new article has no comments, even under a reused id |
| Articles.CreateDeleteCreateReusesId | backend/models.py:27 | creating, deleting that article and creating again hands out the same id |
| Articles.CreateThenDetail | backend/app.py:99-107 | a new article reads back with the stripped fields, and, when the caller has a user row, with the caller as author id and the caller's name as author |
| Articles.UpdateThenDetail | backend/app.py:197-203 | after an update the article reads back with the stripped new fields, its old stamp and its old author |
| Commenting.GetComments | backend/app.py:217-228 | 404 exactly for a missing article. 500 exactly when one of its comments has no user row. Otherwise exactly that article's comments, each once, shown with its author's name, text and stamp, oldest first |
| Commenting.PostComment | backend/app.py:230-242 | 401, then 404, then 400 exactly for empty stripped content, and 201 for a caller with an identity, an existing article and non-empty stripped content. Nothing changes on error. On 201 one comment is added under the next rowid, attached to the article, owned by the caller, with the stripped text and the current stamp |
| Commenting.KnownAuthorsNoServerError | backend/app.py:224 | when every comment names an existing user, reading an existing article's thread succeeds |
| Commenting.NewestEndsThread | backend/app.py:220 | when every comment on the article has an author row, the comment stamped later than every other comment on it is the last entry of the thread |
| Commenting.PostThenRead | backend/app.py:230-242 | when every comment in the store names an existing user and no stamp is ahead of the clock, a comment just posted by a registered user ends its article's thread, with the stripped text |
| Listing.ListArticles | backend/app.py:80-93 | every article exactly once, newest first, each with its title, the excerpt of its content, its stamp and its author name when the owner row exists |
| Listing.MyArticles | backend/app.py:164-175 | 401 exactly without identity. Otherwise exactly the caller's articles, each once, newest first, with title and stamp. Whether the caller's user row exists is not checked |
| Listing.MineWithinList | backend/app.py:168 | an id is in the caller's list exactly when it is in the public list and the caller owns that article |
| Listing.NewestHeadsList | backend/app.py:82 | the article stamped later than every other one heads the public list |
| Listing.CreateThenListed | backend/app.py:82-85 | on a store whose stamps are all before the clock (every reachable store), an article just created heads the public list, with its stripped title and the excerpt of its stripped content |
| Blog.InitDb | backend/app.py:34-43 | on an empty articles table two ownerless demo articles are added as ids 1 and 2, the second one newer. Otherwise nothing changes |
| Blog.Apply | backend/app.py:96 | a protected route called without an identity changes nothing |
| Blog.RegisterKeepsValid | backend/models.py:12 | registration keeps names unique, stripped and non-empty, and keeps every stamp in the past |
| Blog.UpdateMeKeepsValid | backend/models.py:12 | a profile update keeps names unique, stripped and non-empty |
| Blog.CreateArticleKeepsValid | backend/models.py:28-30 | creating an article keeps every title and content stripped and non-empty, and every stamp in the past |
| Blog.UpdateArticleKeepsValid | backend/models.py:28-29 | updating an article keeps every title and content stripped and non-empty, and every comment attached |
| Blog.DeleteArticleKeepsValid | backend/models.py:34-39 | deleting an article keeps every remaining comment attached to an existing article |
| Blog.PostCommentKeepsValid | backend/models.py:39-41 | posting keeps every comment's text stripped and non-empty and every comment attached to an existing article |
| Blog.InitDbKeepsValid | backend/app.py:37-42 | seeding keeps the invariants |
| Blog.ApplyKeepsValid | backend/models.py:9-42 | every request keeps the invariants, whoever sends it |
| Blog.RunKeepsValid | backend/models.py:9-42 | any sequence of requests keeps the invariants |
| Blog.ReachableValid | backend/models.py:9-42 | every store reachable from the first start has unique stripped names, stripped non-empty texts, attached comments and past stamps |
| Blog.ApplyKeepsAuthorsKnown | backend/models.py:31-40 | while tokens name registered users, every article owner and comment author stays an existing user |
| Blog.RunKeepsAuthorsKnown | backend/models.py:31-40 | the same over any sequence of requests whose tokens name users registered by then |
| Blog.ThreadsReadable | backend/app.py:224 | from the first start, while tokens name registered users, reading an existing article's comments never fails |
| Blog.ForeignTokenBreaksThread | backend/app.py:239 | a token for an id without a user row posts a comment, after which the article's comment thread is a 500 |
| Blog.BootListing | backend/app.py:39-41 | after the first start the public list shows the two demo articles, the second first, without author |

## Left out

- JWT issuance, verification and the 7-day expiry (`backend/app.py:13,77`). The identity is a parameter, None when the token is missing or invalid. Every failed token is answered 401 here. `flask_jwt_extended` answers 422, not 401, for a token that is present but malformed.
- `POST /api/me/avatar` and `/uploads/...` (`backend/app.py:138-162`). They save files, build URLs and serve files: I/O.
- `GET /api/health`: constant answer, no store.
- Password hashing internals. The hash is the symbolic term `Hashed(salt, password)`: an ideal hash without collisions. The random salt is a parameter. One-wayness is not modelled.
- `datetime.utcnow` is a logical clock that advances by one per inserted row. Real timestamps may tie, and the lists promise only the order by stamp. Ties are broken by id, where SQL leaves the order open.
- `isoformat()` rendering of stamps and the message texts of the JSON bodies. Only status codes and payload fields are modelled.
- Column widths `String(32)` and `String(200)`: SQLite does not enforce them, so no length limit is modelled.
- The request-size cap `MAX_CONTENT_LENGTH` of 5 MB (`backend/app.py:15`). A larger body makes `get_json()` (`backend/app.py:52,69,98,127,196,235`) answer 413. The model accepts a title, content, comment or name of any length and answers 201 or 200.
- Lone surrogates. Python's `json` turns `"\ud800"` into a string holding an unpaired surrogate, and `sqlite3` cannot encode it, so the query or commit at `backend/app.py:58,73,106,135,203,241` raises, which is a 500. Dafny's `char` has no surrogate values, so the model cannot express that input.
- JSON fields are modelled as optional strings. A falsy non-string value (`0`, `false`, `[]`, `{}`) reads as `''` through `or ''` (`backend/app.py:53,99,128,236`), exactly like a missing field, so the model covers it. A truthy non-string in a field that is stripped makes `.strip()` raise, which is a 500 the model does not give. Login's username and both passwords (`backend/app.py:54,70,71`) are not stripped: a truthy non-string there goes to the query or to the hash function, which is not modelled. A body that is not a JSON object is not modelled either.
- Article ids in URLs are unbounded naturals here. Flask's `<int:aid>` converter accepts any number of digits, but the SQLite driver cannot bind an integer of 2^63 or more, so `get_or_404(aid)` raises (`backend/app.py:179,193,210,219,233`) and Flask answers 500 where the model answers 404.
- The rowid corner case: once the largest id reaches 2^63 - 1, SQLite picks a random unused id. Ids here are unbounded.
- Transactions and concurrency: each handler is one atomic transition. The race between two registrations of one name, which the unique index turns into an exception, is not modelled.
- Models.UserNamed: with duplicate names, which the unique index rules out, `first()` returns an unspecified row while the model returns the highest id, so its uniqueness clause is stated only under unique names.
- CORS and app configuration, and the frontend (`frontend/src/stores/auth.js`, `frontend/src/router/index.js`, `frontend/vite.config.js`): browser state, route tables and build settings.
- Login does not change the store, so it is not a `Blog.Request`. Nor are the other read-only routes.
