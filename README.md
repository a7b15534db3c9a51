# yamdb core, modelled in Dafny

yamdb is a review site for creative works ("titles"). Users sign up with a username and
an email and get a confirmation code by mail. They trade the code for a token, then
browse categories, genres and titles. Each user may post one scored review per title and
any number of comments on reviews. This project models the part of it that holds logic:

- `permissions.dfy`: the three permission classes (`IsAdminUserOrReadOnly`,
  `IsAuthorAdminModeratorOrReadOnly`, `IsAdmin`) and how the review and comment views
  combine them with the framework's `IsAuthenticatedOrReadOnly`. These are plain boolean
  rules, with their grant/deny tables proved as lemmas.
- `models.dfy`: roles and the `is_admin`/`is_moderator` helpers, the records, and the
  score bounds.
- `validators.dfy`: the username checks (reserved word `me`, the pattern
  `^[\w.@+-]+\z`) and the year check, with the current year as a parameter.
- `rating.dfy`: the loop of `get_rating`, proved equal to a mean on naturals that lies
  within the score bounds, and the listing order `['-rating', 'name']` as a strict order.
- `genre_links.dfy`: the pure specification of the genre-association protocol. It covers
  the rows of a title, the `get_or_create(name=, slug=)` upsert, the rows inserted for a
  list of specs, and deletion of a snapshot. It proves that inserting and then deleting
  the pre-insert snapshot leaves the title exactly the new rows and leaves every other
  title's rows as they were.
- `catalog.dfy`: `class Catalog`, an in-memory store. It holds categories, genres (slug
  to name), titles, the `GenreTitle` rows, reviews and comments, with an invariant for the
  foreign keys, the score bounds and the `(author, title)` unique constraint. Its methods
  are `TitleWriteSerializer.create`/`update`, the `on_delete` cascades, review validation
  and creation, and comment creation. The genre operations (create, update, and the genre
  and title cascades) are proved against the functions of `genre_links.dfy`; the others
  are stated directly over the tables.
- `title_views.dfy`: `TitleViewSet`. It covers which serializer each action uses and the
  write serializer's field checks. It models the `create`/`update` views: they pop the
  caller's genre list, validate a placeholder `{"name": "name", "slug": "slug"}` in its
  place, and hand the popped list to the serializer.
- `accounts.dfy`: `class UserStore` with `user_signup`, `user_auth` and `PATCH users/me/`.

The confirmation code that `create_confirmation_code` draws at random and the current
year are inputs. The mail is returned as a value, not sent. The token is a value naming
the user, not a JWT.

Where the code behaves differently from the design of the system, the model follows the
code:

- Genre replacement is not atomic. No transaction wraps it. A spec whose slug is already
  stored under another name raises during the inserts: the title row (on create) and the
  rows inserted before it stay, and no old row is deleted. The model returns
  `ServerError` with exactly that partial state.
- The upsert is keyed on `(name, slug)` together, not on the slug alone.
- An empty genre list is accepted and gives a title with no genre rows.
- A request without a `genre` key makes `create` fail at `pop` (a 500). A non-partial
  update without it is refused by validation, because the field is required.
- The placeholder goes through the genre serializer's unique-slug validator. While a
  stored genre has the slug `slug`, every create and every update carrying a `genre` key
  is refused with 400.

One exception: the username pattern check, which the code never applies (see
"## Findings"). The account operations use the corrected check. With the check as
written, a username such as `"a b"` would be signed up, looked up and saved.

## Model

| member | source | states |
|---|---|---|
| `Common.ToLower` | api_yamdb/api/views.py:31 | the lowered email has the same length, each `A`..`Z` becomes its lower-case letter, no upper-case letter is left, and every other character is unchanged |
| `Common.ToLowerIdempotent` | api_yamdb/api/views.py:31 | lowering an already lowered email changes nothing |
| `Validators.MatchesUsernamePattern` | api_yamdb/reviews/validators.py:10 | the pattern matches iff the string is non-empty and every character is a word character or one of `.@+-` |
| `Validators.NoTrailingNewline` | api_yamdb/reviews/validators.py:10 | because of `\z`, a string ending in a newline never matches |
| `Validators.RegexUsernameValidatorAsWritten` | api_yamdb/api/serializers.py:42-45 | listing the class rather than an instance makes the check accept every value |
| `Validators.ValidateUsernamePattern` | api_yamdb/reviews/validators.py:7-10 | the intended check: accepts iff the pattern matches, otherwise a 400 |
| `Validators.AsWrittenAcceptsSpace` | api_yamdb/api/serializers.py:42-45 | `"a b"` passes the validator as attached but fails the pattern |
| `Validators.ValidateUsernameNotMe` | api_yamdb/reviews/validators.py:13-18 | rejects exactly `"me"` and returns every other value unchanged |
| `Validators.CapitalisedMePasses` | api_yamdb/reviews/validators.py:16 | the comparison is case-sensitive: `"Me"` passes, `"me"` does not |
| `Validators.ValidateUsername` | api_yamdb/reviews/models.py:20-24 | the corrected pair of username validators accepts iff the value is not `"me"` and matches the pattern, and returns it unchanged |
| `Validators.MeMatchesPattern` | api_yamdb/reviews/validators.py:10-18 | `"me"` matches the pattern, so only the reserved-word check rejects it |
| `Validators.AcceptedUsernameShape` | api_yamdb/reviews/validators.py:10-18 | an accepted username is non-empty and is not `"me"` |
| `Validators.ValidateYear` | api_yamdb/reviews/validators.py:21-25 | rejects iff the year is later than the current year |
| `Validators.CurrentYearAccepted` | api_yamdb/reviews/validators.py:24 | the current year is accepted and the next one is rejected |
| `Models.ParseRole` | api_yamdb/reviews/models.py:31-36 | only `user`, `moderator` and `admin` are roles, and each parses back to its stored value |
| `Models.RoleRoundTrip` | api_yamdb/reviews/models.py:11-18 | storing a role and parsing it back gives the same role |
| `Models.IsAdmin` | api_yamdb/reviews/models.py:48-49 | `is_admin()`: the role is admin or the staff flag is set (its consequences are the permission lemmas below) |
| `Models.IsModerator` | api_yamdb/reviews/models.py:51-52 | `is_moderator()`: the role is moderator, whatever the staff flag |
| `Models.AdminIffRoleOrStaff` | api_yamdb/reviews/models.py:48-52 | admin iff role admin or staff flag; a moderator without the flag is a moderator and not an admin |
| `Models.NewUser` | api_yamdb/reviews/models.py:31-46 | a signed-up user has the given username, email and code, the default role `user`, and is neither admin nor moderator |
| `Permissions.AdminUserOrReadOnly` | api_yamdb/api/permissions.py:4-10 | a safe method passes; otherwise an authenticated admin passes and everyone else is refused (tables proved in the lemmas below) |
| `Permissions.AuthorAdminModeratorOrReadOnly` | api_yamdb/api/permissions.py:13-24 | an authenticated user passes with a safe method, as the author, as an admin or as a moderator; an anonymous one only with a safe method |
| `Permissions.AdminOnly` | api_yamdb/api/permissions.py:27-31 | only an authenticated admin passes, whatever the method |
| `Permissions.ReviewCommentObjectAccess` | api_yamdb/api/views.py:199-202 | the review and comment views need both `IsAuthenticatedOrReadOnly` and the author/admin/moderator rule |
| `Permissions.SafeMethodsAlwaysGranted` | api_yamdb/api/permissions.py:4-24 | GET, HEAD and OPTIONS pass both `IsAdminUserOrReadOnly` and the object check, authenticated or not |
| `Permissions.AnonymousUnsafeDenied` | api_yamdb/api/permissions.py:4-31 | an anonymous unsafe request is refused by all three classes |
| `Permissions.AuthenticatedUnsafeIffAdmin` | api_yamdb/api/permissions.py:8-9 | an authenticated unsafe request passes `IsAdminUserOrReadOnly` iff the user is admin |
| `Permissions.AnonymousObjectAccessIffSafe` | api_yamdb/api/permissions.py:24 | an anonymous user gets object access iff the method is safe |
| `Permissions.AuthenticatedObjectAccess` | api_yamdb/api/permissions.py:16-23 | an authenticated user gets object access iff the method is safe or the user is the author, an admin or a moderator |
| `Permissions.PlainUserCannotModifyOthers` | api_yamdb/api/permissions.py:16-24 | a plain user who is not the author can never change or delete a review or comment |
| `Permissions.AdminOnlyIgnoresMethod` | api_yamdb/api/permissions.py:27-31 | `IsAdmin` does not depend on the method, and whatever it grants `IsAdminUserOrReadOnly` grants too |
| `Permissions.CombinedUnsafeAccess` | api_yamdb/api/views.py:199-202 | through both classes of the review/comment views, an unsafe request is granted exactly to an authenticated author, admin or moderator |
| `Rating.MeanRating` | api_yamdb/api/serializers.py:107-110 | 0 for no scores, otherwise the sum divided by the count and truncated; `GetRating` is proved equal to it and `RatingWithinBounds` bounds it |
| `Rating.GetRating` | api_yamdb/api/serializers.py:99-110 | the sum-and-count loop returns the mean rating: 0 with no scores, otherwise sum over count truncated |
| `Rating.NoReviewsRateZero` | api_yamdb/api/serializers.py:107-108 | no reviews rate 0 |
| `Rating.SumBounds` | api_yamdb/api/serializers.py:103-105 | the sum of scores that each lie in `lo..hi` lies in `lo*n..hi*n` |
| `Rating.DivWithin` | api_yamdb/api/serializers.py:110 | truncating division keeps a sum within `lo*n..hi*n` in `lo..hi` |
| `Rating.RatingWithinBounds` | api_yamdb/api/serializers.py:103-110 | a non-empty rating lies within any bounds all its scores lie within |
| `Rating.RatingOfValidScores` | api_yamdb/api/serializers.py:99-110 | with scores in 1..10 the rating is 0 for no reviews and in 1..10 otherwise |
| `Rating.RatingExamples` | api_yamdb/api/serializers.py:103-110 | `[8, 9, 10]` rates 9 and `[5, 6]` rates 5 |
| `Rating.ListedBefore` | api_yamdb/api/views.py:133 | the order `['-rating', 'name']` names: higher rating first, then names in code-point order; proved a strict order below |
| `Rating.LexLessIrreflexive` | api_yamdb/api/views.py:133 | no name sorts before itself |
| `Rating.LexLessTransitive` | api_yamdb/api/views.py:133 | the name order is transitive |
| `Rating.ListedBeforeStrictOrder` | api_yamdb/api/views.py:133 | higher rating first, then name, is a strict order |
| `Rating.ListingExample` | api_yamdb/api/views.py:133 | ratings 9 (B), 7 (A), 7 (C) list as B, A, C |
| `GenreLinks.RowsOf` | api_yamdb/api/serializers.py:161-163 | the title's rows are exactly the rows pointing at it |
| `GenreLinks.Without` | api_yamdb/api/serializers.py:181-183 | after deleting a set of keys, exactly the rows with other keys remain |
| `GenreLinks.NewRowsPrefix` | api_yamdb/api/serializers.py:172-178 | each spec in turn appends one row for that genre and the title |
| `GenreLinks.WithoutConcat` | api_yamdb/api/serializers.py:181-183 | deletion works row by row on a table split in two |
| `GenreLinks.RowsOfConcat` | api_yamdb/api/serializers.py:161-163 | the title's rows of a table split in two are the rows of each part |
| `GenreLinks.WithoutTwice` | api_yamdb/api/serializers.py:181-183 | deleting key after key is deleting the set of keys |
| `GenreLinks.WithoutKeepsDistinct` | api_yamdb/reviews/models.py:213-223 | deleting rows keeps the primary keys unique |
| `GenreLinks.SnapshotRemovesAllOfTitle` | api_yamdb/api/serializers.py:161-168 | deleting a snapshot of the title's rows leaves the title no rows, so a snapshot taken after the inserts would delete the new rows too |
| `GenreLinks.Replaced` | api_yamdb/api/serializers.py:161-183 | the rows with every row of the title removed and the inserted rows appended; `InsertThenDeleteIsReplaced` shows the insert-then-delete sequence computes it |
| `GenreLinks.ReplaceLeavesExactlyNew` | api_yamdb/api/serializers.py:157-183 | after the replacement the title's rows are exactly the inserted ones |
| `GenreLinks.ReplaceKeepsOtherTitles` | api_yamdb/api/serializers.py:157-183 | after the replacement every other title has exactly the rows it had |
| `GenreLinks.InsertThenDeleteIsReplaced` | api_yamdb/api/serializers.py:161-183 | inserting fresh rows and then deleting the pre-insert snapshot is the replacement: the snapshot cannot catch a new row |
| `GenreLinks.Accepts` | api_yamdb/api/serializers.py:173-175 | `get_or_create(name=, slug=)` succeeds iff the slug is free or stored under the same name |
| `GenreLinks.UpsertAll` | api_yamdb/api/serializers.py:171-175 | the genre table after resolving the specs in order, each binding its slug to its name; `UpsertShape` states its contents |
| `GenreLinks.FirstFailure` | api_yamdb/api/serializers.py:171-175 | the prefix a failing run keeps is unique: it ends just before the first spec whose `get_or_create` raises |
| `GenreLinks.FailsAtThirdSpec` | api_yamdb/api/serializers.py:171-175 | with `b` stored as `B`, the list `x, y, (Other, b)` upserts the first two specs and fails at the third |
| `GenreLinks.UpsertShape` | api_yamdb/api/serializers.py:172-175 | a run of accepted upserts renames no stored genre, maps each spec's slug to its name, and adds nothing else |
| `GenreLinks.AcceptedIffCompatible` | api_yamdb/reviews/models.py:59-64 | every upsert of a list succeeds iff no spec uses a slug stored, or given earlier, under another name |
| `Catalog.ApplyChanges` | api_yamdb/api/serializers.py:185-191 | each field present in the validated data replaces the stored one, each missing one is kept; `EmptyPatchChangesNothing` shows an empty body keeps the title |
| `Catalog.ClearCategory` | api_yamdb/reviews/models.py:98-104 | deleting a category keeps every title and each field but the category, and no title keeps that category |
| `Catalog.ScoresOfShape` | api_yamdb/api/serializers.py:103-108 | the scores of a title are all in 1..10, and there are none iff the title has no review |
| `Catalog.Catalog.AddCategory` | api_yamdb/reviews/models.py:59-64 | a category is inserted iff its slug is free |
| `Catalog.Catalog.GetOrCreateGenre` | api_yamdb/api/serializers.py:173-175 | the upsert succeeds iff the pair exists or the slug is free, and only then is the genre table updated |
| `Catalog.Catalog.InsertGenreRow` | api_yamdb/api/serializers.py:172-177 | one pass: the upsert, then on success one new row under the next key for that genre and the title; on failure nothing changes |
| `Catalog.Catalog.InsertNextRow` | api_yamdb/api/serializers.py:171-177 | the pass for spec `i` extends the first `i` rows of the batch by the row for spec `i` exactly when its upsert succeeds |
| `Catalog.Catalog.InsertGenreRows` | api_yamdb/api/serializers.py:172-178 | the loop upserts and inserts one row per spec up to the first failing spec; it succeeds iff every upsert does |
| `Catalog.Catalog.InsertTitle` | api_yamdb/api/serializers.py:140 | a new title gets a fresh key that no genre row refers to yet |
| `Catalog.Catalog.CreateTitle` | api_yamdb/api/serializers.py:134-149 | the title is inserted; it succeeds iff the genre list is compatible; the title's rows are then exactly one per spec; on failure `ServerError`, with the upserts and rows of exactly the specs before the first failing one |
| `Catalog.Catalog.DeleteRows` | api_yamdb/api/serializers.py:181-183 | deleting the snapshot row by row removes exactly the snapshot's keys |
| `Catalog.Catalog.ReplaceGenres` | api_yamdb/api/serializers.py:157-183 | with a compatible list every spec is upserted, the table is the replacement, the title's rows are exactly the new ones and other titles keep theirs; else the specs before the first failing one are upserted and their rows stay beside the old ones |
| `Catalog.Catalog.AssignFields` | api_yamdb/api/serializers.py:185-192 | each supplied field is assigned and each missing one kept |
| `Catalog.Catalog.UpdateTitle` | api_yamdb/api/serializers.py:151-194 | without a `genre` key the genres and rows are untouched; with one, every spec is upserted and the rows replaced as above, or a `ServerError` leaves the upserts and rows of exactly the specs before the first failing one; fields change only on success |
| `Catalog.Catalog.DeleteCategory` | api_yamdb/reviews/models.py:98-104 | deleting a category nulls its titles' category and removes no title |
| `Catalog.Catalog.DeleteGenre` | api_yamdb/reviews/models.py:216-219 | deleting a genre removes exactly its rows |
| `Catalog.Catalog.DropRowsOfTitle` | api_yamdb/reviews/models.py:220-223 | deleting a title's rows leaves it none |
| `Catalog.Catalog.DropReviewsOfTitle` | api_yamdb/reviews/models.py:145-149 | exactly the title's reviews go, along with the comments on them |
| `Catalog.Catalog.DeleteTitle` | api_yamdb/reviews/models.py:145-149 | deleting a title removes its genre rows, its reviews and their comments, and nothing else |
| `Catalog.Catalog.DeleteReview` | api_yamdb/reviews/models.py:186-190 | deleting a review removes exactly its comments |
| `Catalog.Catalog.TitleRating` | api_yamdb/api/serializers.py:99-110 | a title's rating is 0 iff it has no review and in 1..10 otherwise |
| `Catalog.Catalog.ValidateReview` | api_yamdb/api/serializers.py:203-217 | only POST is checked: 404 iff the title is missing, 400 iff this author already reviewed it |
| `Catalog.Catalog.CreateReview` | api_yamdb/api/views.py:208-210 | a blank text or a score outside 1..10 is a 400, a missing title a 404, a repeat author a 400, each with no change; otherwise a new review with the request user as author, the URL title and `pub_date` now, after which the same author's second POST is refused |
| `Catalog.Catalog.UpdateReview` | api_yamdb/api/views.py:212-214 | a 404 exactly when the review is not under the URL's title, then a 400 for a blank text or a bad score, each with no change; otherwise no duplicate check, and the author, the title and `pub_date` are kept |
| `Catalog.Catalog.GetReview` | api_yamdb/api/views.py:226-232 | a review resolves iff one with that key belongs to the URL's title, otherwise 404 |
| `Catalog.Catalog.CreateComment` | api_yamdb/api/views.py:226-237 | a blank text is a 400, then a review not under the URL's title a 404, each with no change; otherwise a new comment with the request user as author and the resolved review |
| `TitleViews.GetSerializerClass` | api_yamdb/api/views.py:188-192 | the read serializer exactly for `list` and `retrieve` |
| `TitleViews.WritesUseWriteSerializer` | api_yamdb/api/views.py:188-192 | every writing action uses the write serializer |
| `TitleViews.ValidateTitle` | api_yamdb/api/serializers.py:113-132 | an accepted body has every required field (unless partial), a year in 0..current year, an existing category, and a placeholder whose slug is free |
| `TitleViews.EmptyPatchChangesNothing` | api_yamdb/api/serializers.py:185-192 | an empty PATCH is valid and leaves the title as it was |
| `TitleViews.FullUpdateNeedsGenre` | api_yamdb/api/views.py:164-166 | a full update without a `genre` key is a 400 |
| `TitleViews.CreateTitleView` | api_yamdb/api/views.py:137-151 | a missing `genre` key is a 500 and a bad body a 400, both with no change; a valid body inserts the title under the next key and nothing else in the title table; a compatible list then gives one row per spec (none for an empty list), an incompatible one a 500 that keeps the title and the rows of the specs before the first failing one |
| `TitleViews.UpdateTitleView` | api_yamdb/api/views.py:153-186 | 404 for an unknown title and 400 for a bad body, both with no change; without a `genre` key genres and rows are untouched; a compatible list upserts every spec and replaces the title's rows; an incompatible one is a 500 with unchanged fields and, beside the old rows, the upserts and rows of exactly the specs before the first failing one |
| `Accounts.PatchOk` | api_yamdb/api/views.py:95-100 | the partial `AccountSerializer` accepts iff a given username passes the field checks and is free or the user's own, a given email is non-blank, short enough and used by no other user, and the names fit 150 characters |
| `Accounts.Patched` | api_yamdb/api/serializers.py:32-36 | a profile update never changes the role, the staff flag or the code, and an update with no fields changes nothing |
| `Accounts.UserStore.Signup` | api_yamdb/api/views.py:22-50 | email lowered; an existing pair mails the stored code; a username or email bound elsewhere is a 400 with no change; otherwise one user with the drawn code; the mailed code then authenticates |
| `Accounts.UserStore.RepeatSignup` | api_yamdb/api/views.py:34-47 | a second identical signup mails the same code as the first; after both the user table is the old one or the old one plus exactly the one new user with the first code |
| `Accounts.UserStore.Auth` | api_yamdb/api/views.py:53-69 | 400 for bad fields, 404 for an unknown user, a token iff the code equals the stored one exactly |
| `Accounts.UserStore.PatchMe` | api_yamdb/api/views.py:88-102 | valid fields are applied, the role is read-only, usernames and emails stay unique |

## Left out

- I/O: sending the mail (`send_email`), issuing the JWT (`get_token_for_user`) and drawing
  the random code (`create_confirmation_code`). The mail is returned as a value, the token
  names the user, the code is a parameter. A mail failure, which the code lets propagate,
  is not modelled.
- Concurrency and transactions: every operation is one sequential step on the store.
- The float division of `get_rating`: modelled as natural division, which it equals for
  these small non-negative sums.
- `Rating.GetRating`: scores are taken in primary-key order, not in the model's
  `-pub_date` order. The sum does not depend on the order.
- The ordering `-pub_date` of reviews and comments, and the sort the filter backend
  applies to the title listing. Only the comparator of `['-rating', 'name']` is modelled.
- `Rating.ListedBefore`: this is the order that `ordering = ['-rating', 'name']` names, not
  one the code applies. `Title` has no `rating` column and `TitleViewSet.queryset` is not
  annotated with one, so nothing in the code sorts by the computed `get_rating`.
- `Common.ToLower`: only ASCII letters are lowered. Python lowers every Unicode letter.
- `Validators.MatchesUsernamePattern`: `\w` is ASCII only. Python's `\w` also matches
  every Unicode letter and digit.
- The whitespace trimming that every `CharField` applies is not modelled, and the
  format check of `EmailField` is not modelled either. This holds for every member
  below:
  - `Accounts.UserStore.Signup` and `Accounts.UserStore.PatchMe` accept an email without
    checking its format.
  - `Accounts.UserStore.Auth` compares the code untrimmed.
  - `Catalog.Catalog.CreateReview`, `Catalog.Catalog.UpdateReview` and
    `Catalog.Catalog.CreateComment` accept a text made of spaces only. The source trims it
    to `""` and refuses it with 400.
- `Validators.ValidateUsername`: it applies the corrected pattern check after the `me`
  check. As written, the listed class is never applied, so only `me` is refused; see
  "## Findings".
- `Accounts.UserStore.Signup`: its username check is the corrected one, so a username
  outside the pattern, such as `"a b"`, gets a 400 here. `user_signup` as written signs
  it up.
- `Accounts.UserStore.Auth`: its username check is the corrected one, so `"a b"` gets a
  400 here. `user_auth` as written looks it up and answers 404 or issues a token.
- `Accounts.PatchOk` and `Accounts.UserStore.PatchMe`: the username check is the corrected
  one, so a new username `"a b"` is refused here. The code as written saves it.
- `TitleViews.ValidateTitle`: the upper bound 32767 of the small integer field is not
  modelled. It never binds below the current year. Field trimming is not modelled.
- Raw genre values that are not a list of name/slug objects are not modelled. A genre
  spec is always a name and a slug. The following cases are left out:
  - entries with missing or extra keys, which the serializer passes straight to the ORM;
  - `"genre": -1`, which the `-1` sentinel of `update` takes for a missing key, so the
    rows are not replaced;
  - `"genre": null`, which raises in the loop: with no change on update, and after the
    title row is inserted on create.
- `Catalog.Catalog.UpdateReview`: only `PATCH` is modelled. A `PUT` on a review
  (`partial=False`) also requires `text` and `score`, and is a 400 without them.
- The lengths of category and genre names and slugs, the slug character set, and the
  category and genre create/list/delete views beyond the unique slug. Search and filter
  backends, `TitleFilter` and `CreateDestroyListMixin` are not part of this model.
- The admin user CRUD of `UsersViewSet` (besides `users/me/`), and deleting a user with
  its reviews and comments.
- Authors of reviews and comments are stored as usernames, not as user keys. The source
  compares foreign keys (`obj.author == request.user`), so after a user renames themselves
  through `users/me/` they are still the author of their reviews and comments. The model
  does not carry a rename over to the authors it has stored.
- `GET users/me/` only returns the current user, so there is nothing to prove about it.
- The CSV import script, the admin site and the URL routing are not part of this model.

## Findings

| source | as written | input that shows it | evidently intended | confidence | as-written member | corrected member |
|---|---|---|---|---|---|---|
| api_yamdb/api/serializers.py:42-45 | `validators=[validate_username_not_me, RegexUsernameValidator]` lists the validator class, so validating calls `RegexUsernameValidator(value)`. That builds a new validator whose pattern is the username and compiles it lazily, so nothing is matched and nothing is rejected. The same happens in `TokenSerializer` (line 58) and on the model field (reviews/models.py:23). | username `"a b"` passes | an instance, `RegexUsernameValidator()`, matching `^[\w.@+-]+\z` (with `\Z`, since Python before 3.14 has no `\z` escape) | not executed | `Validators.RegexUsernameValidatorAsWritten`, `Validators.AsWrittenAcceptsSpace` | `Validators.ValidateUsernamePattern`, `Validators.ValidateUsername` |
