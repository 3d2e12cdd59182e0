# Users data-access core, modelled in Dafny

This project models the data-access core of a FastAPI starter service. It has three parts:

- the generic `BaseRepository`, with `get`, `get_multi` (filters, offset/limit paging and a total count), `create`, `update` and `delete` (these three with a `commit_txn` switch);
- the `UserService` built on it, with `get`, `get_by_email`, `get_all_users`, `create` (hashes the password), `update` (its own field rules) and `delete`;
- the `User` model: its `UserRole` values, its columns with their defaults, and its constraints.

Modules, one per file:

- `Values` (values.dfy): Python values, with their truthiness. Python dicts, as insertion-ordered entry lists with `k in d` / `d[k]`, `d[k] = v` and `del`. Stored records, as maps from attribute name to value.
- `Text` (text.dfy): `str.endswith`, `str.replace(pat, "")` and `str()` of a value. SQL `ILIKE` with its `%` and `_` wildcards.
- `Schema` (schema.dfy): a mapped model class, meaning its columns, defaults and UNIQUE / NOT NULL sets. It also holds what the model constructor builds from keyword arguments, and the constraints a commit checks.
- `Filters` (filters.dfy): the WHERE clauses `get_multi` derives from a filter dict, what a record must satisfy to match them, the selection, and the page.
- `Store` (store.dfy): a database session as a value. `committed` is what the database holds, `rows` is the session's view, and `nextId` is the primary-key sequence. Each repository operation has a step function here, and the lemmas about those steps are here too.
- `Repositories` (repository.dfy): `class BaseRepository`. Its fields are the session state, which its methods update in place. The lookups scan with a loop, `get_multi` builds its clauses and its matches with two loops, and `update` runs its setattr loop; `create`, `delete` and the commit are straight-line. Each method is proved to equal the matching step function.
- `Users` (users.dfy): `UserRole`, the `users` table description, a typed `User` view with a round trip to stored records, and the table's invariants.
- `UserServices` (service.dfy): the password hasher, `class UserService` and the step functions its `update` and `delete` follow, with the lemmas about them.

Modelling choices:

- **Order.** Records are kept in insertion order, and `get_multi` pages in that order. The query has no `ORDER BY`, so the database may use any order. Insertion order is the model's choice.
- **Primary keys.** The model follows a PostgreSQL-style sequence (`SERIAL`): a rollback or a delete does not give an id back, so ids are never reused. This is the model's choice; SQLite, which the integration tests use, takes `max(id) + 1` and so can reuse an id freed by a rollback or by deleting the last record. The id is taken when the record is added to the session.
- **None on insert.** The ORM leaves a column given None out of the INSERT, so a column with a default takes the default, and a column without one stores NULL (`Schema.Omitted`).
- **Commits.** A commit checks the NOT NULL and UNIQUE constraints, where two NULLs never clash. If a check fails, the transaction rolls back and the result is `Err(IntegrityError)`, which stands for the exception `commit()` raises.
- **Unknown keys.** A keyword argument that is not a column makes the model constructor raise `Err(TypeError)`.
- **Password hashing.** The hash is a function the model does not interpret. The hasher records each plaintext it receives, so service `create` can be stated to hash exactly once, with the plaintext.

Where the code is ambiguous:

- **`email_contains`.** `get_multi` tests `hasattr(model, field)` on the whole key before it looks at the `_contains` suffix. The User model has no attribute `email_contains`, so that filter is skipped and every record passes it. This is what base.py does as written. The repository tests expect substring matching, which the user repository (not part of this model) may supply. The model follows base.py; `Users.EmailContainsIgnored` states the consequence.
- **Service `update`.** Its last step calls `user_repo.update(db_obj)`, and that signature does not match base.py's keyword-only `update`. The user repository's own `update` is not part of this model. The model reads that step as "write the mutated record back to the session and commit, then return it" (`BaseRepository.Persist`).
- **Passwords in `update`.** A truthy `password` given to service `update` is stored verbatim in `hashed_password`, unhashed. The code does this and the service tests pin it down, so the model keeps it (`UserServices.UpdateStoresPasswordVerbatim`).

What the code does, stated plainly:

- `role` is a plain `String(20)` column: it is not restricted to `UserRole` values, and `create` and `update` accept any string for it. Only its default is `"USER"`.
- A missing id gives `None`; there is no typed error for it.
- `skip` and `limit` are not validated. A limit of 0 gives an empty page.
- The service does no uniqueness pre-check. A duplicate email fails only at commit, through the database's UNIQUE constraint.

## Model

| member | source | states |
|---|---|---|
| Text.LikeMatch | app/repositories/base.py:70 | SQL `ILIKE`: `%` matches any run of characters, `_` any one character, every other character itself up to ASCII case; its meaning for the pattern the repository builds is `Text.ContainsPattern` |
| Text.RemoveAll | app/repositories/base.py:68 | `str.replace(pat, "")`: every non-overlapping occurrence, scanning left to right, is dropped, so the result is never longer; its value on a `_contains` key is `Filters.RemoveSuffix` |
| Text.PyStr | app/repositories/base.py:70 | `str(value)` spliced into the f-string: a string as it is, `None`, `True`/`False`; for an integer, a `-` exactly when negative followed by digits that read back in decimal as its absolute value; for a list, brackets, `[]` when empty, and the element's `repr` between them for one element |
| Text.NatToString | app/repositories/base.py:70 | the decimal numeral of a natural number: digits only, reading back as the number, with no leading zero |
| Text.ContainsPattern | app/repositories/base.py:67-70 | for a filter value without `%` or `_`, `ILIKE '%value%'` holds exactly when the value occurs in the column, ignoring ASCII case (both directions) |
| Text.UnderscoreIsAWildcard | app/repositories/base.py:70 | the value is spliced into the pattern unescaped, so `a_c` matches `abc` although it does not occur in it |
| Text.PrefixMatch | app/repositories/base.py:70 | a wildcard-free value followed by `%` is a case-insensitive prefix test |
| Text.LeadingPercent | app/repositories/base.py:70 | a leading `%` matches when some suffix of the text matches the rest of the pattern |
| Filters.RemoveSuffix | app/repositories/base.py:67-68 | removing every `_contains` from `x + "_contains"` gives back `x` when no other occurrence starts inside `x` |
| Filters.ContainsKeyName | app/repositories/base.py:68 | `"email_contains".replace("_contains", "")` is `"email"` |
| Filters.EntryCondition | app/repositories/base.py:65-79 | an entry yields a clause only when its whole key is an attribute and its value is not None; a pattern clause only for a `_contains` key with a truthy value, on the attribute named by the key with `_contains` removed; otherwise a clause on the key itself, membership for a list value, equality with the value otherwise |
| Filters.Holds | app/repositories/base.py:70-79 | a clause on a NULL column never holds, as SQL `=`, `IN` and `ILIKE` treat NULL |
| Filters.Conditions | app/repositories/base.py:63-79 | each filter entry contributes at most one clause |
| Filters.Conjunctive | app/repositories/base.py:63-79 | a record matches the query exactly when it satisfies every filter entry (both directions) |
| Filters.Dispatch | app/repositories/base.py:65-79 | entries whose key is not an attribute, or whose value is None, are skipped; a `_contains` string without `%` or `_` means a case-insensitive substring match on the stripped attribute; a bool means equality; a list means membership; anything else means equality |
| Filters.Select | app/repositories/base.py:60-84 | the matches are exactly the records that satisfy every clause, and there are no more of them than records |
| Filters.Page | app/repositories/base.py:87 | the page has at most `limit` records; its length is `min(limit, max(0, n - skip))`; its i-th record is the match at `skip + i` |
| Filters.SelectCount | app/repositories/base.py:81-84 | the count of matches is the number of positions whose record satisfies every clause, repeated records included |
| Filters.SelectInOrder | app/repositories/base.py:87-91 | the matches are the records at strictly increasing positions, so paging follows the records' order |
| Filters.SelectAll | app/repositories/base.py:63 | with no clauses, every record matches, in order |
| Filters.SelectDistinctIds | app/repositories/base.py:60-84 | selecting from records with distinct ids gives records with distinct ids |
| Filters.ConsecutivePagesDisjoint | tests/integration/test_repositories.py:139-164 | pages `(skip, limit)` and `(skip + limit, limit2)` of one query share no id |
| Schema.TableOk | app/models/user.py:14-15 | the constraints a commit checks: every record has exactly the model's columns and an integer primary key, NOT NULL columns hold a value, and no two records share a non-NULL value of a UNIQUE column |
| Schema.TableOkDistinctIds | app/models/user.py:14 | a table that satisfies its constraints has non-null, pairwise distinct primary keys |
| Schema.Construct | app/repositories/base.py:106-111 | `model(**obj_in)` once inserted has exactly the model's columns; a column given a value other than None stores it; a column omitted or given None takes its default, or NULL when it has none |
| Schema.InstantiatedFrom | app/repositories/base.py:106-111 | every column of a new record other than the key holds a value given for it, its default, or NULL |
| Schema.Instantiate | app/repositories/base.py:106-111 | a given non-None id is kept; otherwise the record takes the next sequence value and the sequence advances; every other column is the given non-None value, else the default, else None |
| Store.IndexOf | app/repositories/base.py:37-39 | the result is the first position whose attribute equals the value, or None when no record has it |
| Store.FirstWith | app/repositories/base.py:27-39 | `get`: a record of the session with that id, or None exactly when no record has it |
| Store.UniqueIndex | app/repositories/base.py:37-39 | with distinct ids, looking up a record's id finds that record |
| Store.Flush | app/repositories/base.py:109-111 | `commit()` when `commit_txn` is true: the session's records become the table when they keep its constraints, otherwise the session falls back to the table with IntegrityError; its properties are `Store.FlushOk` |
| Store.CreateStep | app/repositories/base.py:95-113 | `create`: TypeError for an unknown keyword, otherwise the instantiated record is appended and committed when asked; its properties are `Store.CreateAddsOne`, `Store.CreateThenGet`, `Store.CreateUnknownKey` and `Store.CreateDuplicateRejected` |
| Store.Patch | app/repositories/base.py:137-140 | the setattr loop: each key of `obj_in` that is an attribute takes its value, None included; its properties are `Store.PatchShape` and `Store.PatchEffect` |
| Store.UpdateStep | app/repositories/base.py:115-146 | `update`: None for a missing id, otherwise the patched record replaces it and is committed when asked; its properties are `Store.UpdateMissing` and `Store.UpdateOnlyNamedFields` |
| Store.DeleteStep | app/repositories/base.py:148-168 | `delete`: None for a missing id, otherwise the record is removed, committed when asked, and returned; its properties are `Store.DeleteMissing`, `Store.DeleteRemovesOne` and `Store.DeleteCommitSucceeds` |
| Store.PersistStep | app/services/user_service.py:64 | the write-back of a mutated record: None for a missing id, otherwise the record replaces it and is committed |
| Store.FlushOk | app/repositories/base.py:109-111 | a commit keeps the table within its constraints: the session's records become the table, or, when a constraint fails, the session falls back to the table |
| Store.StepsKeepSessionOk | app/repositories/base.py:95-168 | create, update, delete, write-back and rollback keep the committed table within its constraints and every record shaped like the model |
| Store.PatchShape | app/repositories/base.py:138-140 | the setattr loop adds only keys that are both in the dict and attributes |
| Store.PatchEffect | app/repositories/base.py:138-140 | after the setattr loop, an attribute named in the dict holds the dict's value (None included), and every other attribute keeps its own |
| Store.CreateUnknownKey | app/repositories/base.py:106 | an `obj_in` key the model lacks raises, and nothing changes |
| Store.CreateAddsOne | app/repositories/base.py:106-113 | a successful create appends exactly one record, built from `obj_in`, and returns it; it is committed exactly when `commit_txn` is true |
| Store.CreateThenGet | app/repositories/base.py:27-39 | after a committed create, `get` of the new id returns the new record |
| Store.CreateDuplicateRejected | app/models/user.py:15 | a committed create that repeats a UNIQUE value fails, and the session rolls back to the committed table |
| Store.UpdateMissing | app/repositories/base.py:133-135 | `update` of an id no record has returns None and changes nothing |
| Store.UpdateOnlyNamedFields | app/repositories/base.py:137-146 | a successful update replaces only the record with that id, and within it only the attributes named in `obj_in`; the committed table becomes the session's records when `commit_txn` is true and is left as it was otherwise |
| Store.DeleteMissing | app/repositories/base.py:159-161 | `delete` of an id no record has returns None and changes nothing |
| Store.DeleteRemovesOne | app/repositories/base.py:158-168 | a successful delete removes exactly the record with that id and returns it; a later `get` of that id returns None; the committed table becomes the session's records when `commit_txn` is true and is left as it was otherwise |
| Store.DeleteKeepsTableOk | app/repositories/base.py:163-166 | removing a record keeps the table's constraints |
| Store.DeleteCommitSucceeds | app/repositories/base.py:158-168 | with nothing pending, a committed delete of an existing id cannot fail; afterwards no record has that id |
| Store.RollbackUndoesPending | tests/integration/test_repositories.py:206-243 | a create or update made with `commit_txn=False` is undone by a rollback |
| Repositories.BaseRepository.constructor | app/repositories/base.py:16-25 | a repository bound to the session it is given and to its model, over whatever the table and the session already hold |
| Repositories.BaseRepository.Locate | app/repositories/base.py:37-39 | the scan returns the position of the first record whose attribute equals the value, or None |
| Repositories.BaseRepository.Get | app/repositories/base.py:27-39 | `get(id)` returns a record with that id, or None exactly when none has it |
| Repositories.BaseRepository.FindFirst | app/services/user_service.py:21-24 | the exact-match lookup behind `get_by_email` |
| Repositories.BaseRepository.GetMulti | app/repositories/base.py:41-93 | `total` is the number of matching records, whatever `skip` and `limit` are; `items` is the page of those matches |
| Repositories.BaseRepository.Finish | app/repositories/base.py:109-111 | commits when asked: the table takes the session's records, or, on a constraint failure, the session rolls back and the result is IntegrityError |
| Repositories.BaseRepository.Commit | app/repositories/base.py:110 | `commit()` |
| Repositories.BaseRepository.Rollback | tests/integration/test_repositories.py:220-224 | `rollback()` drops pending changes |
| Repositories.BaseRepository.Create | app/repositories/base.py:95-113 | follows the create step, and keeps the session valid |
| Repositories.BaseRepository.Update | app/repositories/base.py:115-146 | follows the update step, with the setattr loop over `obj_in`, and keeps the session valid |
| Repositories.BaseRepository.Delete | app/repositories/base.py:148-168 | follows the delete step, returns the removed record, and keeps the session valid |
| Repositories.BaseRepository.Persist | app/services/user_service.py:64 | writes the mutated record back in place of the one with that id, then commits |
| Values.Lookup | app/services/user_service.py:61-62 | `k in d` and `d[k]`: None exactly when `k` is not a key, otherwise the value held under `k`, None included |
| Values.Put | app/services/user_service.py:37 | `d[k] = v`: overwrites in place when `k` is present, appends otherwise; its properties are `Values.PutLookup` and `Values.PutKeys` |
| Values.PutLookup | app/services/user_service.py:37 | after `d[k] = v`, `k` gives `v` and every other key what it gave before |
| Values.PutKeys | app/services/user_service.py:37 | `d[k] = v` keeps the keys distinct and adds exactly `k` |
| Values.Remove | app/services/user_service.py:40-41 | `del d[k]`: drops the entry for `k`; its properties are `Values.RemoveLookup` and `Values.RemoveKeys` |
| Values.RemoveLookup | app/services/user_service.py:40-41 | after `del d[k]`, `k` is absent and every other key gives what it gave before |
| Values.RemoveKeys | app/services/user_service.py:40-41 | `del d[k]` keeps the keys distinct and removes exactly `k` |
| Users.ParseRole | app/models/user.py:6-8 | a role string names ADMIN or USER exactly when it is that value's string |
| Users.UserTableWellFormed | app/models/user.py:14-23 | the `users` table has an integer primary key `id`; its defaults and constraints name only its columns |
| Users.ToRow | app/models/user.py:14-23 | a typed user is stored with exactly the table's columns, under its id and email |
| Users.FromRow | app/models/user.py:14-23 | a record is read as a typed user exactly when every column holds a value of its declared type, and storing that user gives the record back |
| Users.RowRoundTrip | app/models/user.py:14-23 | reading back a stored user gives the same user |
| Users.CreationDefaults | app/models/user.py:19-23 | a new user that omits them or gives them as None has `is_active` true, `is_superuser`, `is_verified` and `is_deleted` false, and role "USER"; fields given a value other than None keep it |
| Users.DefaultsFitLengths | app/models/user.py:15-23 | every string default fits its column's declared width |
| Users.InstantiateFits | app/repositories/base.py:106-111 | for any model, a new record fits the widths when its defaults and its given strings do |
| Users.CreationFitsLengths | app/models/user.py:15-23 | the defaults respect the declared widths (300 for email, hashed_password, first_name and last_name; 20 for role), so a new user fits them whenever its given strings do |
| Users.TableInvariant | app/models/user.py:14-15 | in the committed table, ids are distinct integers, and every email is present and unique |
| Users.EmailContainsIgnored | app/repositories/base.py:65 | as written, `{"email_contains": v}` gives no clause for User, so every record matches it |
| Users.NoContainsColumns | app/repositories/base.py:65-67 | no User column ends in `_contains`, so the substring branch never applies to User |
| UserServices.PasswordHasher.Hash | app/services/user_service.py:33 | returns the digest of the plaintext and records exactly one call, with that plaintext |
| UserServices.CreatePayload | app/services/user_service.py:36-41 | the dict `create` hands to the repository; its properties are `UserServices.CreatePayloadFields` |
| UserServices.CreatePayloadFields | app/services/user_service.py:36-41 | the payload has `hashed_password` set to the hash, has no `password`, and keeps every other input field unchanged |
| UserServices.CreateStoresHash | app/services/user_service.py:31-43 | a create from User fields and a password stores the hash, never the plaintext, every other field given a value other than None, and the default of each other defaulted field (omitted or given None, as `obj_in.dict()` passes unset optional fields); it fails only on a constraint violation, which rolls back |
| UserServices.CreateUserStoresHash | app/services/user_service.py:31-43 | the same, for the `users` table |
| UserServices.SetGiven | app/services/user_service.py:56-58 | the update loop: a field other than `password` that is an attribute and whose value is not None is set; its properties are `UserServices.SetGivenEffect` |
| UserServices.ApplyPassword | app/services/user_service.py:61-62 | a truthy `password` is stored as it is in `hashed_password` |
| UserServices.UpdatedUser | app/services/user_service.py:55-62 | the record service `update` writes back: the loop, then the password step; its properties are `UserServices.UpdatedUserEffect` |
| UserServices.UpdateUserStep | app/services/user_service.py:45-64 | service `update`: None for an unknown id, otherwise the updated record is written back and committed; its properties are `UserServices.UpdateUnknownUser` and `UserServices.UpdateUserWritesBack` |
| UserServices.DeleteUserStep | app/services/user_service.py:66-74 | service `delete`: None for an unknown id, otherwise the repository deletes with a commit and the record fetched before is returned; its properties are `UserServices.DeleteUserReturnsRecord` |
| UserServices.SetGivenEffect | app/services/user_service.py:56-58 | after the update loop, a field given a non-None value holds it, and every other field keeps its own; `password` is never set |
| UserServices.UserPatchEffect | app/services/user_service.py:56-58 | the same, for User's attributes |
| UserServices.UpdateEffect | app/services/user_service.py:55-62 | for any model with `hashed_password` and without `password`: the updated record keeps its columns; `hashed_password` takes a truthy `password`; otherwise each field takes its given non-None value or keeps its own |
| UserServices.UpdatedUserEffect | app/services/user_service.py:55-62 | the updated user keeps its columns: `hashed_password` takes a truthy `password`; otherwise each field takes its given non-None value or keeps its own |
| UserServices.UpdateUnknownUser | app/services/user_service.py:48-50 | `update` of an unknown id returns None and changes nothing |
| UserServices.UpdateUserWritesBack | app/services/user_service.py:45-64 | a successful update replaces only the user with that id, by the updated record, and commits |
| UserServices.UpdateStoresPasswordVerbatim | tests/integration/test_services.py:135-146 | a non-empty password given to `update` lands in `hashed_password` unhashed |
| UserServices.DeleteUserReturnsRecord | app/services/user_service.py:66-74 | with nothing pending, `delete` succeeds; it returns None exactly when the id is unknown, and otherwise returns the record as it was, after which no user has that id |
| UserServices.UserService.constructor | app/services/user_service.py:11-14 | a service over a valid repository of the `users` table |
| UserServices.UserService.Get | app/services/user_service.py:16-19 | delegates to the repository's `get` |
| UserServices.UserService.GetByEmail | app/services/user_service.py:21-24 | returns the user whose email equals the argument, or None when no user has it |
| UserServices.UserService.GetAllUsers | app/services/user_service.py:26-29 | `get_multi()` with its defaults: the first 100 users, in order, or all of them when there are fewer |
| UserServices.UserService.Create | app/services/user_service.py:31-43 | hashes the plaintext exactly once, then returns the repository's committed create of the payload |
| UserServices.UserService.Update | app/services/user_service.py:45-64 | follows the service update step: the loop skips `password`, non-attributes and None values; a truthy password is copied verbatim; the record is written back |
| UserServices.UserService.Delete | app/services/user_service.py:66-74 | fetches the user, deletes it with a commit, and returns the record as fetched, or None |

## Left out

- `created_at` and `updated_at`: server-side timestamps, outside the model, so they are not columns here. A filter on them is skipped in the model, where the database would apply it. A `create` whose `obj_in` names them fails with `Err(TypeError)` in the model (`Schema.UnknownKeys`), where `User(**obj_in)` accepts them. An `update` naming them skips them in the model (`Store.Patch`, `UserServices.SetGiven`), where `setattr` would set them.
- SQL type coercion and comparison across types (an int compared with a string column): values compare as Dafny values.
- Attributes that are not columns (methods, relationships, `metadata`): `hasattr` is modelled as membership in the column set.
- UserServices.UserService.GetByEmail: the lookup is an exact match on `email`; the user repository's `get_by_email`, which its tests expect to ignore case, is not part of this model.
- Repositories.BaseRepository.FindFirst: stands in for that `get_by_email` with exact equality, for the same reason.
- Length enforcement on `String(n)` columns: the database's behaviour on overflow is not modelled; only the declared widths and the fitting of defaults are.
- `ILIKE` escape characters and non-ASCII case folding: the pattern has only `%` and `_`, and case folding is ASCII.
- Text.PyStr: for a list of two or more elements only the brackets are stated; the layout between them (`repr` of each element joined by `", "`) is given by the definition, and quote escaping in `repr` is not modelled.
- Negative `skip` or `limit`: they are naturals here.
- Store.CreateAddsOne: the returned record already holds its id and its column defaults whatever `commit_txn` is. The model fills both when the record is added to the session. The ORM fills them only at flush, so an object returned by `create` with `commit_txn=False` reads None for `id` and for every omitted defaulted column until the session flushes.
- Aliasing of session objects: records are values written back explicitly, not shared Python objects.
- Autoflush and `refresh()`: the session view already includes pending changes, and a refresh after a commit returns the same record.
- `Repositories.BaseRepository.Persist`: the user repository's `update(db_obj)` is not part of this model; it is assumed to write the record back and commit.
- Password hashing internals (bcrypt), JWT, HTTP routing, Pydantic validation, dependency wiring and application startup: outside the core.
- Concurrency and asynchronous execution: operations are sequential calls.
