/** The application's two tables, `event` and `wish` (app.py, models
    section), as an immutable value: each table is the sequence of its rows
    in rowid order, which is the order SQLite scans them in. A logical clock
    stands for `datetime.utcnow` in the `created_at` defaults, and new
    primary keys follow SQLite's rowid rule. */
module Store {
  import opened Text
  import opened Seqs

  /** A row of `event`: `slug` is the public lookup key, declared UNIQUE. */
  datatype Event = Event(id: nat, name: string, slug: string, createdAt: nat)

  /** A row of `wish`: `eventId` is a foreign key into `event`. */
  datatype Wish = Wish(id: nat, eventId: nat, senderName: string, message: string, createdAt: nat)

  /** Both tables and the clock. A new row's id is derived from the ids
      present, as SQLite does without AUTOINCREMENT (NextEventId,
      NextWishId). */
  datatype Db = Db(
    events: seq<Event>,
    wishes: seq<Wish>,
    clock: nat          // the next `created_at` to hand out
  )

  /** The largest value an SQLite INTEGER holds (a signed 64-bit integer).
      Binding a larger Python int as a query parameter raises
      `OverflowError` instead of running the query. */
  const MaxSqliteInt: nat := 0x7FFF_FFFF_FFFF_FFFF

  /** A freshly created database: both tables empty. */
  const Empty: Db := Db([], [], 0)

  function EventId(e: Event): int { e.id }
  function EventCreated(e: Event): int { e.createdAt }
  function WishId(w: Wish): int { w.id }
  function WishCreated(w: Wish): int { w.createdAt }

  /** The id SQLite gives a new event row: one more than the largest id in
      the table (1 for an empty table), so the id of a deleted newest row
      is handed out again. */
  function NextEventId(events: seq<Event>): (r: nat)
    ensures forall e :: e in events ==> e.id < r
    ensures r == 1 || exists e :: e in events && e.id == r - 1
  {
    MaxKey(events, EventId) + 1
  }

  /** The id SQLite gives a new wish row, by the same rule. */
  function NextWishId(wishes: seq<Wish>): (r: nat)
    ensures forall w :: w in wishes ==> w.id < r
    ensures r == 1 || exists w :: w in wishes && w.id == r - 1
  {
    MaxKey(wishes, WishId) + 1
  }

  /** The primary keys present in the event table. */
  function EventIds(events: seq<Event>): set<nat> {
    set e | e in events :: e.id
  }

  /** The UNIQUE constraint on `event.slug`: rows sharing a slug are the
      same row. */
  ghost predicate SlugsUnique(events: seq<Event>) {
    forall a, b :: a in events && b in events && a.slug == b.slug ==> a == b
  }

  /** Referential integrity of `wish.event_id`: no orphan wishes. */
  ghost predicate WishesHaveEvents(s: Db) {
    forall w :: w in s.wishes ==> w.eventId in EventIds(s.events)
  }

  /** Every stored message (NOT NULL, checked non-blank before insertion)
      and every stored sender name is stripped and non-empty. */
  ghost predicate WishesFilled(wishes: seq<Wish>) {
    forall w :: w in wishes ==> IsFilled(w.message) && IsFilled(w.senderName)
  }

  /** Every stored event name and slug is stripped and non-empty. */
  ghost predicate EventsFilled(events: seq<Event>) {
    forall e :: e in events ==> IsFilled(e.name) && IsFilled(e.slug)
  }

  /** Rows are kept in insertion order: ids and timestamps both strictly
      increase along each table, and the clock is ahead of every row. */
  ghost predicate RowOrder(s: Db) {
    && StrictlyAscending(s.events, EventId)
    && StrictlyAscending(s.events, EventCreated)
    && StrictlyAscending(s.wishes, WishId)
    && StrictlyAscending(s.wishes, WishCreated)
    && (forall e :: e in s.events ==> e.createdAt < s.clock)
    && (forall w :: w in s.wishes ==> w.createdAt < s.clock)
  }

  /** The store invariant every handler preserves. */
  ghost predicate Valid(s: Db) {
    && RowOrder(s)
    && SlugsUnique(s.events)
    && WishesHaveEvents(s)
    && EventsFilled(s.events)
    && WishesFilled(s.wishes)
  }

  /** `Event.query.filter_by(slug=slug).first()`: the first event in rowid
      order with that slug, or nothing when no event has it. */
  function FindEventBySlug(events: seq<Event>, slug: string): (r: Option<Event>)
    ensures r.None? <==> forall e :: e in events ==> e.slug != slug
    ensures r.Some? ==> r.value in events && r.value.slug == slug
  {
    FindFirst(events, (e: Event) => e.slug == slug)
  }

  /** `Event.query.get(id)`: the event with that primary key, if any. */
  function FindEventById(events: seq<Event>, id: nat): (r: Option<Event>)
    ensures r.None? <==> id !in EventIds(events)
    ensures r.Some? ==> r.value in events && r.value.id == id
  {
    FindFirst(events, (e: Event) => e.id == id)
  }

  /** `Wish.query.filter_by(event_id=eventId)`: the wishes of one event, in
      rowid order. */
  function WishesOf(wishes: seq<Wish>, eventId: nat): (r: seq<Wish>)
    ensures forall w :: w in r <==> w in wishes && w.eventId == eventId
    ensures multiset(r) <= multiset(wishes)
  {
    Filter(wishes, (w: Wish) => w.eventId == eventId)
  }

  /** The empty database satisfies the invariant. */
  lemma EmptyIsValid()
    ensures Valid(Empty)
  {
  }

  /** With unique slugs, looking an event up by its slug finds that very
      event, wherever it sits in the table. */
  lemma {:induction false} SlugLookupFinds(events: seq<Event>, e: Event)
    requires SlugsUnique(events)
    requires e in events
    ensures FindEventBySlug(events, e.slug) == Some(e)
  {
  }

  /** With unique ids, there is at most one row per primary key. */
  lemma EventIdsDetermineRows(events: seq<Event>, a: Event, b: Event)
    requires StrictlyAscending(events, EventId)
    requires a in events && b in events && a.id == b.id
    ensures a == b
  {
    var i :| 0 <= i < |events| && events[i] == a;
    var j :| 0 <= j < |events| && events[j] == b;
    assert EventId(events[i]) == EventId(events[j]);
  }

  /** With unique ids, there is at most one wish per primary key. */
  lemma WishIdsDetermineRows(wishes: seq<Wish>, a: Wish, b: Wish)
    requires StrictlyAscending(wishes, WishId)
    requires a in wishes && b in wishes && a.id == b.id
    ensures a == b
  {
    var i :| 0 <= i < |wishes| && wishes[i] == a;
    var j :| 0 <= j < |wishes| && wishes[j] == b;
    assert WishId(wishes[i]) == WishId(wishes[j]);
  }

  // ---------------------------------------------------------------------
  // Row-level writes: what `db.session.add`/`delete` + `commit` do
  // ---------------------------------------------------------------------

  /** Inserts an event row with the next id, stamped with the clock: the
      old rows stay in front, untouched, and no old row has the new id. */
  function InsertEvent(s: Db, name: string, slug: string): (t: Db)
    ensures |t.events| == |s.events| + 1
    ensures t.events == s.events + [t.events[|s.events|]]
    ensures var e := t.events[|s.events|];
      && e.name == name && e.slug == slug && e.createdAt == s.clock
      && e.id == NextEventId(s.events)
      && forall x :: x in s.events ==> x.id < e.id
    ensures t.wishes == s.wishes && t.clock == s.clock + 1
  {
    s.(events := s.events + [Event(NextEventId(s.events), name, slug, s.clock)],
       clock := s.clock + 1)
  }

  /** Inserts a wish row with the next id, stamped with the clock: the old
      rows stay in front, untouched, and no old row has the new id. */
  function InsertWish(s: Db, eventId: nat, senderName: string, message: string): (t: Db)
    ensures |t.wishes| == |s.wishes| + 1
    ensures t.wishes == s.wishes + [t.wishes[|s.wishes|]]
    ensures var w := t.wishes[|s.wishes|];
      && w.eventId == eventId && w.senderName == senderName && w.message == message
      && w.createdAt == s.clock && w.id == NextWishId(s.wishes)
      && forall x :: x in s.wishes ==> x.id < w.id
    ensures t.events == s.events && t.clock == s.clock + 1
  {
    s.(wishes := s.wishes + [Wish(NextWishId(s.wishes), eventId, senderName, message, s.clock)],
       clock := s.clock + 1)
  }

  /** Deletes the event row with primary key `id` and, by the cascade of
      the `Event.wishes` relationship, every wish row referencing it; every
      other row of either table survives. */
  function DeleteEventCascade(s: Db, id: nat): (t: Db)
    ensures forall e :: e in t.events <==> e in s.events && e.id != id
    ensures forall w :: w in t.wishes <==> w in s.wishes && w.eventId != id
    ensures |t.events| <= |s.events| && |t.wishes| <= |s.wishes|
    ensures t.clock == s.clock
  {
    s.(events := Filter(s.events, (e: Event) => e.id != id),
       wishes := Filter(s.wishes, (w: Wish) => w.eventId != id))
  }

  /** Deletes the wish row with primary key `id`; every other row survives
      and the event table is untouched. */
  function DeleteWishRow(s: Db, id: nat): (t: Db)
    ensures forall w :: w in t.wishes <==> w in s.wishes && w.id != id
    ensures |t.wishes| <= |s.wishes|
    ensures t.events == s.events && t.clock == s.clock
  {
    s.(wishes := Filter(s.wishes, (w: Wish) => w.id != id))
  }

  /** When no old row has its slug, the inserted event is what a lookup of
      the slug finds. */
  lemma InsertEventAppends(s: Db, name: string, slug: string)
    requires forall x :: x in s.events ==> x.slug != slug
    ensures var t := InsertEvent(s, name, slug);
      FindEventBySlug(t.events, slug) == Some(t.events[|s.events|])
  {
    var t := InsertEvent(s, name, slug);
    var f := FindEventBySlug(t.events, slug);
    assert f.value in s.events || f.value == t.events[|s.events|];
  }

  /** Ids are SQLite rowids, not counters: once the newest event is
      deleted, the next event inserted gets its id again. Two events into
      an empty table get ids 1 and 2; delete 2, insert a third, and it is
      2 as well. */
  lemma DeletedNewestEventIdIsReused(s: Db, x: string, y: string, z: string)
    requires s.events == []
    ensures var s2 := InsertEvent(InsertEvent(s, x, x), y, y);
      && |s2.events| == 2 && s2.events[1].id == 2
      && var s4 := InsertEvent(DeleteEventCascade(s2, 2), z, z);
      && |s4.events| == 2 && s4.events[1].id == 2 && s4.events[1].slug == z
  {
    var s1 := InsertEvent(s, x, x);
    assert s1.events == [Event(1, x, x, s.clock)];
    var s2 := InsertEvent(s1, y, y);
    assert s2.events[1].id == 2;
    var s3 := DeleteEventCascade(s2, 2);
    assert s3.events == s1.events by {
      assert Filter(s2.events[1..], (e: Event) => e.id != 2) == [];
    }
  }

  /** With unique ids, deleting the wish row with a given id takes out that
      one row and leaves every other row in place. */
  lemma DeleteWishRowRemovesOne(s: Db, k: nat)
    requires StrictlyAscending(s.wishes, WishId)
    requires k < |s.wishes|
    ensures RemovedAt(s.wishes, DeleteWishRow(s, s.wishes[k].id).wishes, k)
  {
    var id := s.wishes[k].id;
    forall i | 0 <= i < |s.wishes| ensures (s.wishes[i].id != id <==> i != k) {
      if i != k {
        assert WishId(s.wishes[i]) != WishId(s.wishes[k]);
      }
    }
    FilterRemovesOne(s.wishes, (w: Wish) => w.id != id, k);
  }

  /** Inserting an event whose name and slug are filled and whose slug no
      row has yet keeps the invariant. */
  lemma InsertEventKeepsValid(s: Db, name: string, slug: string)
    requires Valid(s)
    requires IsFilled(name) && IsFilled(slug)
    requires forall x :: x in s.events ==> x.slug != slug
    ensures Valid(InsertEvent(s, name, slug))
  {
    var e := Event(NextEventId(s.events), name, slug, s.clock);
    var t := InsertEvent(s, name, slug);
    AppendKeepsOrder(s.events, e, EventId);
    AppendKeepsOrder(s.events, e, EventCreated);
    assert forall x :: x in t.events ==> x in s.events || x == e;
    assert RowOrder(t);
    assert SlugsUnique(t.events);
    assert EventsFilled(t.events);
    forall w | w in t.wishes ensures w.eventId in EventIds(t.events) {
      var x :| x in s.events && x.id == w.eventId;
      assert x in t.events;
    }
  }

  /** Inserting a wish with a filled message and sender on an existing
      event keeps the invariant. */
  lemma InsertWishKeepsValid(s: Db, eventId: nat, senderName: string, message: string)
    requires Valid(s)
    requires IsFilled(message) && IsFilled(senderName)
    requires eventId in EventIds(s.events)
    ensures Valid(InsertWish(s, eventId, senderName, message))
  {
    var w := Wish(NextWishId(s.wishes), eventId, senderName, message, s.clock);
    var t := InsertWish(s, eventId, senderName, message);
    AppendKeepsOrder(s.wishes, w, WishId);
    AppendKeepsOrder(s.wishes, w, WishCreated);
    assert forall x :: x in t.wishes ==> x in s.wishes || x == w;
    assert RowOrder(t);
    assert WishesHaveEvents(t);
    assert WishesFilled(t.wishes);
  }

  /** The cascading delete leaves no orphan wish behind, so it keeps the
      invariant. */
  lemma DeleteEventCascadeKeepsValid(s: Db, id: nat)
    requires Valid(s)
    ensures Valid(DeleteEventCascade(s, id))
  {
    var t := DeleteEventCascade(s, id);
    FilterKeepsOrder(s.events, (e: Event) => e.id != id, EventId);
    FilterKeepsOrder(s.events, (e: Event) => e.id != id, EventCreated);
    FilterKeepsOrder(s.wishes, (w: Wish) => w.eventId != id, WishId);
    FilterKeepsOrder(s.wishes, (w: Wish) => w.eventId != id, WishCreated);
    assert RowOrder(t);
    forall w | w in t.wishes ensures w.eventId in EventIds(t.events) {
      var e :| e in s.events && e.id == w.eventId;
      assert e in t.events;
    }
  }

  /** Deleting one wish keeps the invariant. */
  lemma DeleteWishRowKeepsValid(s: Db, id: nat)
    requires Valid(s)
    ensures Valid(DeleteWishRow(s, id))
  {
    var t := DeleteWishRow(s, id);
    FilterKeepsOrder(s.wishes, (w: Wish) => w.id != id, WishId);
    FilterKeepsOrder(s.wishes, (w: Wish) => w.id != id, WishCreated);
    assert RowOrder(t);
  }
}
