# A verified model of a FastAPI posts-and-votes backend

This project models the business logic of a small social-posting API built with
FastAPI and SQLAlchemy over PostgreSQL, together with its earlier versions. Users
register and look each other up. Authenticated users create, list, update and
delete posts, and vote on them. Each handler becomes a pure Dafny function from a
state to a `Step(out, state)`. Here `out` is either `Ok(status, value)` or
`Fail(error)`, where the error is 404, 403, 409, 422 or 500.

Modules:

- `Common`: optional values, fields that may be left unset, the error taxonomy,
  the `published` default, and scan orders. A scan order is the order in which
  a query without `ORDER BY` happens to return rows.
- `Search`: the title filter of the listing. It holds PostgreSQL's `LIKE`, the
  filter as the code builds it, and the intended substring test.
- `Users`: the `users` table and registration, lookup and listing. It is shared
  by the final application and the ORM version in `app_2`.
- `Schema`: the three tables of the final application and the invariants their
  declarations impose. These are primary keys, unique e-mails, foreign keys and
  the `(user_id, post_id)` vote key. It also holds the vote count per post and
  the cascading deletes.
- `Votes`: the vote handler as a two-state toggle per `(caller, post)` pair.
- `Posts`: the post handlers of the final application:
  - the listing, with an outer-join vote count, title search, `LIMIT` and `OFFSET`;
  - lookup;
  - creation by the caller;
  - update and delete, guarded by existence and then by ownership.
- `Legacy`: the `app_2` version. Its posts have no owner, and no handler checks
  who is calling.
- `Store`: the first, in-memory version. Posts there are dictionaries in a
  Python list.
- `SqliteHelpers`: the pure parts of the SQLite helper script. These are the
  INSERT/UPDATE statement builders and the banner line.

Modelling conventions:

- The caller's id is a parameter of each handler.
- The password hash is a function parameter.
- Timestamps are parameters.
- The ids issued by a table's serial sequence are a counter in the state.
- Row order without `ORDER BY` is a parameter. It must list every key of the
  table exactly once.
- An uncaught Python or database exception is `Fail(InternalError)`, which the
  server answers with status 500. Two such exceptions are `max` of an empty
  list and a NOT NULL violation.

Where the code and its documentation differ, the model follows the code:

- A successful `delete_post` answers 404, not its declared 204. This holds in
  the final application and in `app_2`.
- `published` may be sent as an explicit null. On creation the ORM leaves the
  null attribute out of the INSERT, so the column's server default `TRUE` is
  stored. On update the bulk UPDATE writes the null into the NOT NULL column,
  which the database refuses.
- The listing's title search is the unescaped `LIKE` pattern the ORM
  generates, not a plain substring test (see "## Findings").

## Model

| member | source | states |
|---|---|---|
| `Common.FlagColumn` | app/routers/post.py:150-153 | the value an update writes: a left-out `published` becomes true, an explicit null has no column value, and the column is false exactly when false was sent |
| `Common.InsertedFlag` | app_final/models.py:36 | the value a creation stores: false exactly when false was sent, so a null or left-out flag gets the default true; it agrees with the update's value wherever that exists |
| `Search.ContainsIffSomeSuffix` | app/routers/post.py:37 | the substring test the listing means holds exactly when some suffix of the title starts with the search |
| `Search.EmptySearchMatchesAll` | app/routers/post.py:25 | the default empty search matches every title, both as a substring and under the generated `%%` pattern |
| `Search.AsWrittenAgreesOnLiterals` | app/routers/post.py:37 | for a search without `%`, `_` or `\`, the generated `LIKE '%'‖search‖'%'` filter accepts exactly the titles that contain the search |
| `Search.UnderscoreIsAWildcard` | app/routers/post.py:37 | the generated filter lets the search `_` match the title `a`, which has no underscore |
| `Users.Register` | app/routers/user.py:26-44 | a taken e-mail gives 422 and leaves the table alone; otherwise exactly one row is added under a fresh id, holding the e-mail and `hash(password)`, answered with 201 |
| `Users.RegisterKeepsValid` | app/routers/user.py:29-44 | registration preserves keyed rows and unique e-mails |
| `Users.RegisterTwiceRejected` | app/routers/user.py:29-35 | a second registration with an e-mail just registered is rejected with 422 |
| `Users.GetUser` | app/routers/user.py:47-59 | 404 exactly when no row has the id, else that row with 200 |
| `Users.RegisterThenGet` | app/routers/user.py:26-59 | a newly registered user is returned by a lookup of the id in the answer |
| `Users.AllUsers` | app/routers/user.py:18-23 | the listing has one entry per stored user, contains every stored user and nothing else |
| `Schema.DeletePostCascade` | app_final/models.py:64 | deleting a post removes that row alone, plus exactly the votes on it |
| `Schema.DeletePostCascadeKeepsValid` | app_final/models.py:58-64 | the post cascade keeps every table invariant and leaves the deleted post with no votes |
| `Schema.DeleteUserCascade` | app_final/models.py:39-64 | deleting a user removes that user, exactly the posts they own, and exactly the votes cast by them or on their posts; every remaining row and both id sequences are unchanged |
| `Schema.DeleteUserCascadeKeepsValid` | app_final/models.py:29-64 | the user cascade keeps every invariant, and no remaining post or vote refers to the deleted user |
| `Schema.RegisterKeepsValid` | app_final/models.py:47-55 | adding a user through registration keeps the whole database valid, with unique e-mails |
| `Votes.CastVote` | app/routers/vote.py:19-70 | a missing post gives 404 whatever the direction. With dir 1: 409 if already voted, else the pair is added. With dir 0: the pair is removed if present, else 404. Failures change nothing, and only the caller's pair on that post can change |
| `Votes.VoteThenRemoveRestores` | app/routers/vote.py:45-70 | a vote and then its removal both succeed and restore the database |
| `Votes.RemoveThenVoteRestores` | app/routers/vote.py:45-70 | a removal and then a new vote both succeed and restore the database |
| `Votes.RepeatedRequestsFail` | app/routers/vote.py:45-64 | a second identical up-vote is a conflict; a second identical removal is a 404 |
| `Votes.CastVoteCounts` | app/routers/vote.py:45-70 | a successful vote raises or lowers the voted post's count by one; every other count stays the same |
| `Votes.CastVoteKeepsValid` | app_final/models.py:58-64 | for an existing caller, the vote table stays a set of pairs referencing existing users and posts |
| `Posts.RowsSound` | app/routers/post.py:31-37 | every listed row is a stored post whose title passes the filter, paired with that post's vote count |
| `Posts.RowsComplete` | app/routers/post.py:31-37 | every scanned post whose title passes the filter is listed with its vote count; the row count is the number of such posts |
| `Posts.RowsRespectFilter` | app/routers/post.py:37 | two title filters that agree on every scanned title list the same rows |
| `Posts.EmptySearchListsAll` | app/routers/post.py:25-37 | with the empty search, the rows are all scanned posts in scan order, each with its count |
| `Posts.Page` | app/routers/post.py:38-39 | the page skips `offset` rows and keeps at most `limit` of the rest, in order |
| `Posts.PagesConcatenate` | app/routers/post.py:38-39 | a page of `a` rows followed by the next page of `b` rows is the page of `a + b` rows |
| `Posts.ListPosts` | app/routers/post.py:19-45 | the listing answers 200 with at most `limit` posts. Each one is stored, has a title matching the generated `LIKE '%'‖search‖'%'` pattern, and carries its own vote count |
| `Posts.ListPostsPaginates` | app/routers/post.py:19-45 | the listing is the filtered rows from `offset` on, cut to `limit`. With the empty search, no offset and a limit of at least the number of posts, every post appears, unvoted ones with count 0 |
| `Posts.IntendedListPosts` | app/routers/post.py:19-45 | the corrected listing: at most `limit` stored posts, each with its vote count and a title that contains the search as a substring |
| `Posts.ListingAgreesOnLiterals` | app/routers/post.py:37 | for a search without `%`, `_` or `\`, the listing as written equals the corrected one, so every listed title contains the search |
| `Posts.GetPost` | app/routers/post.py:48-78 | 404 exactly when the id is missing, else the post with its vote count and 200 |
| `Posts.CreatePost` | app/routers/post.py:81-97 | the new post is owned by the caller, takes its fields from the body with `published` defaulting to true, gets a fresh id, and is answered with 201. `published` is false exactly when false was sent; a null flag is left out of the INSERT and gets the server default |
| `Posts.CreatePostKeepsValid` | app/routers/post.py:81-97 | creation by an existing user keeps the database valid, and the new post reads back with 0 votes |
| `Posts.Guard` | app/routers/post.py:109-119 | the existence check comes before the ownership check: 404 for a missing post, 403 for another owner's post, none for the owner |
| `Posts.DeletePost` | app/routers/post.py:100-125 | 404 or 403 leave the database unchanged. The owner's request removes only that post and its votes, and is answered with status 404 |
| `Posts.UpdatePost` | app/routers/post.py:128-157 | 404 or 403 leave the database unchanged. For the owner, title, content and `published` are overwritten and `updated_at` is set; id, owner, creation time, votes and other posts stay the same. A null `published` gives 500 |
| `Posts.MutationsKeepValid` | app/routers/post.py:100-157 | update and delete keep every table invariant |
| `Posts.OnlyOwnerMutates` | app/routers/post.py:115-148 | a post can be updated and deleted by its creator and by nobody else |
| `Legacy.GetPost` | app_2/main_2.py:38-50 | 404 exactly when the id is missing, else the post |
| `Legacy.CreatePost` | app_2/main_2.py:53-62 | one post built from the body under a fresh id, answered with 201. `published` is false exactly when false was sent, and a left-out or null flag stores true |
| `Legacy.DeletePost` | app_2/main_2.py:65-80 | 404 for a missing id. Otherwise only that post is removed, for any caller, and the success status is 404 |
| `Legacy.UpdatePost` | app_2/main_2.py:83-97 | 404 for a missing id. Otherwise the post's fields are overwritten for any caller and other posts stay the same. A null `published` gives 500 |
| `Legacy.CreateUser` | app_2/main_2.py:102-123 | a duplicate e-mail gives 422 and changes nothing; otherwise the user is stored with the hashed password |
| `Legacy.GetUser` | app_2/main_2.py:135-147 | 404 exactly when the id is missing, else the user |
| `Legacy.CreateUserKeepsValid` | app_2/models.py:44 | registration keeps e-mails unique in this version too |
| `Legacy.CreateThenGet` | app_2/main_2.py:38-80 | a created post is returned by a lookup of its id, and deleting it restores the post table |
| `Legacy.UpdateThenGet` | app_2/main_2.py:65-97 | an updated post is returned as the update answered it, a refused update leaves the stored post as it was, and a second delete of an id finds nothing |
| `Store.MaxId` | app_1/main_1.py:160 | the maximum is at least every id and is the id of some entry |
| `Store.FirstIndex` | app_1/main_1.py:244 | the first index holding the id, or none exactly when no entry has it |
| `Store.Matching` | app_1/main_1.py:215 | exactly the entries with the id, empty exactly when there is none |
| `Store.MatchingDistinct` | app_1/main_1.py:215-228 | with distinct ids, the lookup finds the single entry at the first matching index |
| `Store.Create` | app_1/main_1.py:129-170 | an empty list gives 500 and changes nothing. Otherwise the body is appended under the id one above the largest stored id, and earlier entries stay the same |
| `Store.CreateKeepsDistinct` | app_1/main_1.py:160-163 | creation keeps ids distinct, and the new entry is the latest |
| `Store.Latest` | app_1/main_1.py:186-197 | the last entry, or 500 exactly when the list is empty |
| `Store.Get` | app_1/main_1.py:200-228 | every entry with the id, or 404 exactly when there is none |
| `Store.Delete` | app_1/main_1.py:233-254 | 404 for an absent id. Otherwise the first matching entry is removed and the rest keep their order, answered with 204 |
| `Store.DeleteRemovesOnlyTarget` | app_1/main_1.py:244-252 | with distinct ids, the deleted id is gone, every other entry remains, and a lookup of it gives 404 |
| `Store.Update` | app_1/main_1.py:259-280 | 404 for an absent id. Otherwise the first matching entry is replaced by the body under the path id, and the length and every other entry stay the same |
| `Store.Merge` | app_1/main_1.py:283-315 | supplied fields and the id replace the stored ones, and fields left unset keep their stored values. A key missing from the stored dictionary gets the schema default, `published` true and `rating` null |
| `Store.EmptyPatchFillsDefaults` | app_1/main_1.py:283-315 | an empty patch only fills in the schema defaults for missing keys |
| `Store.Patch` | app_1/main_1.py:292-317 | 404 for an absent id. Otherwise the first matching entry is replaced by its merge with the request, and the length and every other entry stay the same |
| `Store.ReplaceKeepsDistinct` | app_1/main_1.py:259-317 | update and patch keep ids distinct |
| `Store.InitialStoreWellFormed` | app_1/main_1.py:75-91 | the initial list has distinct ids, and the first creation gets id 4 |
| `SqliteHelpers.NonNull` | sqlite_functions.py:156 | keeps exactly the items whose value is not `None`, and no `None` remains |
| `SqliteHelpers.NonNullAppend` | sqlite_functions.py:156 | the filter keeps order: filtering a concatenation gives the concatenation of the filtered parts |
| `SqliteHelpers.NonNullKeepsClean` | sqlite_functions.py:156 | items already free of `None` pass through unchanged |
| `SqliteHelpers.PlaceholdersShape` | sqlite_functions.py:161 | `n` columns give exactly `n` marks, joined by commas into `2n-1` characters |
| `SqliteHelpers.InsertStatement` | sqlite_functions.py:144-174 | column `i` and parameter `i` are the key and value of kept item `i`, and the text names the table, lists exactly those columns, and has one placeholder group of that size |
| `SqliteHelpers.InsertMarksMatchParams` | sqlite_functions.py:156-166 | the INSERT text has one `?` per bound parameter, when the table and column names contain no `?` |
| `SqliteHelpers.UpdateStatement` | sqlite_functions.py:177-202 | column `i` and parameter `i` are the key and value of kept item `i`, the id is the last parameter, and the text's SET clause is one `column=?` per kept column |
| `SqliteHelpers.UpdateMarksMatchParams` | sqlite_functions.py:189-199 | the UPDATE text has one `?` per kept field plus one for the id, matching the parameters |
| `SqliteHelpers.Repeat` | sqlite_functions.py:286 | Python's `c * n`: `n` copies of `c`, and empty for `n <= 0` |
| `SqliteHelpers.BannerLayout` | sqlite_functions.py:283-288 | the line opens with `start_chars` `=`, then the text upper-cased between two spaces |
| `SqliteHelpers.BannerWidth` | sqlite_functions.py:283-288 | the line is the two `=` runs, the text and two spaces long; with two gap characters and room, it is exactly `max_char` wide |
| `SqliteHelpers.DefaultBannerWidth` | sqlite_functions.py:283-288 | with the defaults, any text of at most 73 characters gives an 80-character line |

## Left out

- Authentication: the bearer token, its JWT encoding and expiry, and the login route. The caller's user id is a parameter. The case of a token whose user no longer exists is not modelled.
- Password hashing: bcrypt with a random salt is an arbitrary function `hash` passed as a parameter.
- Timestamps: `current_timestamp` is a parameter `now`. `users.updated_at` is not stored, because no handler reads or writes it.
- Row order: there is no `ORDER BY`, so the listing's row order is the scan-order parameter. Only the filter, count, limit and offset are stated.
- The `all_votes` stub registered on the vote route: it returns nothing and is never reached, because the earlier `vote` route has the same path.
- The list-everything handlers of `app_1` and `app_2` (`get_posts`, `get_all_posts`). They return the whole store or table unchanged. The `app_2` user listing is the same query as `Users.AllUsers`.
- Database plumbing: sessions, engine, configuration, CORS, router wiring and the alembic migrations.
- Schema validation by pydantic: for example `dir` outside 0..1, or a missing title, gives a 422 before any handler runs. The model's input types only admit validated bodies; `dir` is the subset type `0..1`.
- The I/O functions of the SQLite script (connecting, creating and dropping tables, deleting and querying), the execution of the built statements, the `lastrowid` they print, and all printing.
- `SqliteHelpers.Upper`: upper-cases ASCII letters only. Python's `str.upper` also maps other alphabets and can lengthen a string (`ß` becomes `SS`).
- `SqliteHelpers.InsertMarksMatchParams`: assumes the table and column names contain no `?`. A `?` in a name would add a mark to the text with no parameter bound to it; the same holds for `SqliteHelpers.UpdateMarksMatchParams`.
- `Posts.ListPosts`: `limit` and `offset` are natural numbers. A negative value is passed to PostgreSQL, which rejects it with an error (500). That path is not modelled.
- Concurrency: the model is sequential. The check-then-insert race between two simultaneous votes is not modelled.
- `app/models.py` is not part of this model. The final application's table shapes follow `app_final/models.py`, which the routers' queries agree with.

## Findings

| source | as written | input that shows it | evidently intended | confidence | as-written member | corrected member |
|---|---|---|---|---|---|---|
| app/routers/post.py:37 | `title.contains(search)` becomes `title LIKE '%' ‖ search ‖ '%'` with the search unescaped, so `%`, `_` and `\` in a search act as pattern syntax | search `_`, title `a`: the post is listed | list only titles that contain the search as a substring | not executed; follows from how the ORM renders `contains` without `autoescape` | `Posts.ListPosts` over `Search.ContainsAsWritten`, with the counterexample `Search.UnderscoreIsAWildcard` | `Posts.IntendedListPosts` over `Search.Contains`, proved to be the substring relation by `Search.ContainsIffSomeSuffix`; `Posts.ListingAgreesOnLiterals` shows the two listings coincide on searches without pattern characters |
