# Wishes: a verified model of the event/wish store

The application is a small Flask site. It lets someone create an *event*
(a name and a unique URL slug). Guests then leave *wishes* (a sender name and
a message) on the event's page. An administrator can list, export or delete
those wishes, or delete the whole event. Two JSON endpoints summarise an
event's wishes. All of this is in `app.py`.

This project models the data logic behind those routes as a functional state
machine over an abstract two-table store. Nothing in it is a database or web
layer:

- `text.dfy` (`Text`): Python's `str.strip()`. It trims the exact set of
  characters for which `str.isspace()` holds. Every form field goes through
  it.
- `seqs.dfy` (`Seqs`): generic sequence operations with their contracts.
  - `Filter` stands for `filter_by`.
  - `FindFirst` stands for `.first()`.
  - `SortBy`, an insertion sort, stands for `order_by`.
  - `Reverse` and `Take` (`.limit`) complete the set.
  - There are also lemmas on ordered sequences.
- `store.dfy` (`Store`): the `event` and `wish` tables, plus:
  - the store invariant `Valid`: unique slugs, no orphan wish, no blank stored
    text, and rows in id and timestamp order;
  - the row-level writes, each with a lemma that it keeps the invariant.
- `handlers.dfy` (`Handlers`): the four mutating routes, `create_event`,
  `delete_event`, `submit_wish` and `admin_delete_wish`. Each is a transition
  that returns a status (`Ok`, `Invalid`, `Conflict`, `NotFound` or
  `ServerError`) and the
  new store.
- `views.dfy` (`Views`): the read routes, `index`, `admin_view`,
  `admin_export`, `api_summary` and `api_wishes`, and how their orders relate.
- `app.dfy` (`App`): requests, their dispatch, and runs of many requests
  starting from an empty database.

Modelling choices:

- **Tables are sequences, not maps.** Each table is the sequence of its rows
  in rowid order, the order SQLite scans them in. Every `.first()` and
  `get` in app.py looks up a UNIQUE column (`slug`) or the primary key, so
  in a valid store at most one row matches and the row order never decides
  the result (SlugLookupFinds, EventIdsDetermineRows, WishIdsDetermineRows).
  The order matters for `ORDER BY created_at`: it coincides with rowid
  order, which pins each sorted view to the table order.
- **Timestamps are a logical clock.** `created_at` is a clock value that both
  tables share and that every insert advances. As a result, no two rows of a
  table share a timestamp, and `ORDER BY created_at` is a total order.
- **Ids are rowids.** The primary keys are `INTEGER PRIMARY KEY` columns
  without AUTOINCREMENT, so SQLite gives a new row max(rowid)+1, and 1 in an
  empty table. The model computes the id the same way (NextEventId,
  NextWishId). The id of a deleted newest row is therefore handed out again:
  a stale `/delete_event/<id>` can delete a newer event
  (DeletedNewestEventIdIsReused).
- **A 404 is an absent value.** In a view it is `None`. In a handler it is the
  `NotFound` status with the store unchanged.
- **An id wider than 64 bits is a 500.** Flask's `<int:...>` converter
  accepts any digit string, but SQLite's INTEGER is a signed 64-bit value:
  binding a larger id raises `OverflowError`, which app.py does not catch.
  That is the `ServerError` status (`MaxSqliteInt`), again with the store
  unchanged. Ids themselves are unbounded integers.
- **A blank-field notice is a status.** Such a notice is `Invalid`, and
  "slug already exists" is `Conflict`. Both leave the store unchanged.

The default sender name is the Vietnamese `'Ẩn danh'` (app.py:103), written
with the precomposed U+1EA8 as its first character.

## Model

| member | source | states |
|---|---|---|
| Text.Strip | app.py:67-68 | the result has no whitespace at either end, and it is empty exactly when the input is all whitespace (so `not x.strip()` means "blank") |
| Text.StripKeepsInfix | app.py:67-68 | stripping removes only whitespace, and only at the two ends: the result is a contiguous piece of the input |
| Text.StrippedIsFixpoint | app.py:67-68 | a value with no whitespace at either end is left unchanged by stripping |
| Text.StripIdempotent | app.py:98-99 | stripping twice gives the same as stripping once |
| Seqs.FindFirst | app.py:72 | `.first()`: nothing exactly when no row matches; otherwise a matching row, and no earlier row matches |
| Seqs.SortBy | app.py:133 | `order_by`: a permutation of its input, in ascending key order |
| Seqs.SortedPermutationUnique | app.py:184 | with no two keys equal, the sorted order of a set of rows is unique |
| Seqs.Take | app.py:171 | `.limit(n)`: the first `min(n, length)` elements, in order |
| Seqs.Filter | app.py:133 | `filter_by`: exactly the rows that match, none more often than in the table, everything when every row matches, and fewer rows when one does not |
| Seqs.MaxKey | app.py:21 | the largest key in the table, or 0 when there is none: an upper bound reached by some row |
| Seqs.FilterKeepsOrder | app.py:133 | filtering a table keeps its rows in their relative order |
| Store.FindEventBySlug | app.py:72 | the lookup finds nothing exactly when no event has the slug; otherwise it finds an event with that slug |
| Store.FindEventById | app.py:83 | `get`: nothing exactly when the id is not a primary key; otherwise the row with that id |
| Store.WishesOf | app.py:133 | `filter_by(event_id=...)`: exactly the wishes of that event, each at most as often as in the table |
| Store.NextEventId | app.py:21 | the id SQLite gives a new event: above every id in the table, and exactly one above the largest (1 for an empty table) |
| Store.NextWishId | app.py:30 | the id SQLite gives a new wish: above every id in the table, and exactly one above the largest (1 for an empty table) |
| Store.InsertEvent | app.py:75-77 | the old rows stay in front, untouched; one row is appended with the given name and slug, the clock as its timestamp, and the next rowid, which no old row has; wishes are untouched and the clock advances |
| Store.InsertWish | app.py:103-105 | the old rows stay in front, untouched; one row is appended on the given event with the given sender and message, the clock as its timestamp, and the next rowid, which no old row has; events are untouched and the clock advances |
| Store.DeleteEventCascade | app.py:27 | an event survives exactly when its id differs, a wish survives exactly when it does not reference that id, neither table grows, the clock is unchanged |
| Store.DeleteWishRow | app.py:158 | a wish survives exactly when its id differs, the table does not grow, events and the clock are unchanged |
| Store.DeletedNewestEventIdIsReused | app.py:21 | two events inserted into an empty table get ids 1 and 2; after deleting event 2, the next event inserted gets id 2 again |
| Store.EmptyIsValid | app.py:20-34 | a fresh database satisfies every table constraint |
| Store.SlugLookupFinds | app.py:23 | with unique slugs, a lookup by an event's slug returns that event |
| Store.EventIdsDetermineRows | app.py:21 | an event id names at most one row |
| Store.WishIdsDetermineRows | app.py:30 | a wish id names at most one row |
| Store.InsertEventAppends | app.py:75-77 | inserting an event appends one row after the untouched old rows, and a lookup of its new slug finds it |
| Store.DeleteWishRowRemovesOne | app.py:158-159 | deleting a wish by id removes that one row and keeps every other row in place and in order |
| Store.InsertEventKeepsValid | app.py:75-77 | inserting a filled event under a new slug keeps the invariant |
| Store.InsertWishKeepsValid | app.py:103-105 | inserting a filled wish on an existing event keeps the invariant |
| Store.DeleteEventCascadeKeepsValid | app.py:27 | deleting an event together with its wishes leaves no orphan wish and keeps the invariant |
| Store.DeleteWishRowKeepsValid | app.py:158-159 | deleting a wish keeps the invariant |
| Handlers.AnonymousSenderIsFilled | app.py:103 | the default sender name is not blank |
| Handlers.CreateEvent | app.py:66-79 | refused (`Invalid`) exactly when the stripped name or slug is empty; refused (`Conflict`) exactly when both are filled and the slug is taken; succeeds exactly when both are filled and the slug is unused; a refusal changes nothing; success appends one event with the stripped fields, leaves the wishes alone, and the slug then looks it up |
| Handlers.DeleteEvent | app.py:82-87 | `ServerError` exactly when the id exceeds SQLite's 64-bit INTEGER, `NotFound` exactly when it fits and no event has it, both with nothing changed; success removes exactly that event and exactly the wishes referencing it, and keeps everything else |
| Handlers.SenderOf | app.py:98-103 | the stored sender is the stripped name, or `'Ẩn danh'` when that is empty, and never blank |
| Handlers.SubmitWish | app.py:96-107 | `NotFound` exactly when no event has the slug; `Invalid` exactly when the event exists and the stripped message is empty; succeeds exactly when the event exists and the stripped message is filled; a refusal changes nothing; success appends one wish on the slug's event with the stripped message and a filled sender, and leaves the events alone |
| Handlers.DeleteWish | app.py:155-161 | `ServerError` exactly when the slug names an event and the wish id exceeds SQLite's 64-bit INTEGER; succeeds exactly when the slug names an event, the id fits and a wish with that id belongs to it; otherwise `NotFound`; a refusal changes nothing; success removes only rows with that id |
| Handlers.CreateEventPreservesValid | app.py:66-79 | `create_event` keeps unique slugs and every other part of the invariant |
| Handlers.SubmitWishPreservesValid | app.py:96-107 | `submit_wish` keeps the invariant: the new wish's event exists and its message is not blank |
| Handlers.DeleteEventPreservesValid | app.py:82-87 | `delete_event` keeps the invariant; in particular, no wish is left pointing at the deleted event |
| Handlers.DeleteWishPreservesValid | app.py:155-161 | `admin_delete_wish` keeps the invariant |
| Handlers.SecondCreateWithSameSlugConflicts | app.py:72-74 | after a successful create, a second create with the same slug is a `Conflict`, so there is still one event more, not two |
| Handlers.BlankSenderWishIsStoredAnonymously | app.py:98-105 | a filled message on a known slug with a blank sender field is stored as one new wish, with the stripped message and the sender name `'Ẩn danh'` |
| Handlers.DeleteWishOfOtherEventIsNotFound | app.py:156-157 | a wish id that belongs to another event than the slug's is `NotFound` (`ServerError` when it exceeds SQLite's 64-bit INTEGER), and the store is unchanged |
| Handlers.DeletedWishIndex | app.py:157-158 | a successful delete names a wish that is in the table |
| Handlers.DeleteWishRemovesExactlyOne | app.py:157-159 | a successful delete removes exactly one row, the one with the id, and keeps all others in place |
| Views.ListEvents | app.py:61 | every event once, newest first |
| Views.ListEventsIsReverseOfTable | app.py:61 | in a valid store, the event list is the event table read backwards |
| Views.WishesNewestFirst | app.py:133 | exactly the event's wishes, newest first |
| Views.WishesOldestFirst | app.py:184 | exactly the event's wishes, oldest first |
| Views.AdminView | app.py:131-134 | a 404 exactly when no event has the slug; otherwise that event and exactly its wishes, newest first |
| Views.AdminExport | app.py:138-151 | a 404 exactly when no event has the slug; otherwise the file `wishes_<slug>.csv`, the header `id, sender_name, message, created_at`, and one row per wish, in the admin page's order |
| Views.ApiSummary | app.py:168-177 | a 404 exactly when no event has the slug; `total` is the event's number of wishes; `last5` holds the first `min(5, total)` entries of the newest-first list |
| Views.ApiWishes | app.py:180-197 | a 404 exactly when no event has the slug; every wish of the event, oldest first, with `total` equal to their number |
| Views.NewestFirstIsReverseOfOldestFirst | app.py:184 | in a valid store, the oldest-first list is the wishes in table order, and the newest-first list is its reverse |
| Views.AdminViewReversesApiWishes | app.py:168-190 | the admin page and `api_wishes` list the same wishes in opposite orders, and the summary's `total` is the page's length |
| App.Handle | app.py:65-161 | a refused request leaves the store unchanged, a request adds at most one row to each table, the clock never goes back, and each request is answered by its own route's handler |
| App.HandlePreservesValid | app.py:65-161 | every mutating route keeps the store invariant |
| App.Run | app.py:65-161 | handling a batch of requests adds at most one row per request to each table, and the clock never goes back |
| App.RunConcat | app.py:65-161 | running two batches one after the other is running their concatenation |
| App.RunPreservesValid | app.py:65-161 | any sequence of requests keeps the store invariant |
| App.ReachableIsValid | app.py:20-34 | every store reachable from an empty database has unique slugs, no orphan wish and no empty message |
| App.DeleteEventRemovesItsWishes | app.py:83-85 | after `delete_event`, no lookup finds the event, no wish references it, and its admin page is a 404 |

## Left out

- Flask plumbing is not modelled: routing, `render_template`, `flash`
  notices, redirects, `send_file` and `jsonify`. A notice becomes a status,
  and a redirect is not modelled.
- `wish_form` (app.py:89-92), `display_view` (app.py:120-124) and
  `qr_image` (app.py:110-115) are left out. Each is a bare slug lookup
  (`FindEventBySlug`) followed by a template or an image.
- `generate_qr_bytes` (app.py:44-52) is left out. It wraps the external
  `qrcode` library and PNG encoding.
- `ensure_db`, the SQLAlchemy session and `commit` are left out. The store is
  an immutable value, and each handler's result is the committed state.
  Transactions and concurrent writers are not modelled.
- Wall-clock time is not modelled. `datetime.utcnow` is a logical clock that
  never repeats a value and never goes back. So two rows of a table never
  tie on `created_at`, and `created_at` order is rowid order, which is what
  ListEventsIsReverseOfTable and NewestFirstIsReverseOfOldestFirst rely on.
  The system clock can be set back, and then `ORDER BY created_at` differs
  from rowid order; neither that nor the order among tied rows is
  modelled.
- Timestamp formatting is not modelled: `isoformat()` in the export and the
  summary, and `strftime("%H:%M")` in `api_wishes`. A timestamp stays a
  clock value.
- Views.AdminExport: CSV quoting and escaping by Python's `csv` module, and
  the UTF-8 encoding of the file, are not modelled. Rows are field records.
- Store.FindEventById: the lookup itself takes any natural number; the
  64-bit bound that `get` hits when it binds the id is checked by
  Handlers.DeleteEvent, the only caller, which answers `ServerError` for it.
- Store.NextEventId, Store.NextWishId: ids are unbounded, so the model never
  reaches SQLite's largest rowid, where SQLite would try random unused ids
  and finally fail with SQLITE_FULL. That takes 2^63 inserts.
- The `String(120)` column lengths are not modelled. SQLite does not enforce
  them, and the code never checks them.
