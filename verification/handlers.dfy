/** The four mutating routes of app.py as transitions of the store. Each
    handler validates its form input, checks its precondition against the
    store and either writes rows or reports why it did not: `Invalid` is
    the "field is blank" notice, `Conflict` the "slug already exists"
    notice, `NotFound` the 404 of `first_or_404`/`get_or_404`, and `ServerError`
    the 500 of the uncaught `OverflowError` that an id in the URL beyond
    SQLite's 64-bit INTEGER raises when it is bound. A form field
    that is absent from the request arrives as the empty string, as
    `request.form.get(key, '')` makes it. */
module Handlers {
  import opened Text
  import opened Seqs
  import opened Store

  datatype Status = Ok | Invalid | Conflict | NotFound | ServerError

  /** What a handler answers, together with the store after the request. */
  datatype Outcome = Outcome(status: Status, store: Db)

  /** The sender name stored for a wish whose sender field is blank
      ("Anonymous" in Vietnamese). */
  const AnonymousSender: string := "\U{1EA8}n danh"

  lemma AnonymousSenderIsFilled()
    ensures IsFilled(AnonymousSender)
  {
    assert AnonymousSender[0] == '\U{1EA8}';
    assert AnonymousSender[|AnonymousSender| - 1] == 'h';
  }

  /** `create_event`: both `name` and `slug` are stripped; a blank one is
      refused, an existing slug is refused, otherwise exactly one event is
      appended, and it is what a lookup of the slug finds from then on. */
  function CreateEvent(s: Db, name: string, slug: string): (r: Outcome)
    ensures r.status != NotFound
    ensures r.status != Ok ==> r.store == s
    ensures r.status == Invalid <==> |Strip(name)| == 0 || |Strip(slug)| == 0
    ensures r.status == Conflict <==>
      && |Strip(name)| > 0 && |Strip(slug)| > 0
      && exists e :: e in s.events && e.slug == Strip(slug)
    ensures r.status == Ok <==>
      && |Strip(name)| > 0 && |Strip(slug)| > 0
      && forall e :: e in s.events ==> e.slug != Strip(slug)
    ensures r.status == Ok ==> r.store == InsertEvent(s, Strip(name), Strip(slug))
    ensures r.status == Ok ==>
      && r.store.wishes == s.wishes
      && |r.store.events| == |s.events| + 1
      && r.store.events[..|s.events|] == s.events
      && r.store.events[|s.events|].name == Strip(name)
      && r.store.events[|s.events|].slug == Strip(slug)
      && FindEventBySlug(r.store.events, Strip(slug)) == Some(r.store.events[|s.events|])
  {
    var name := Strip(name);
    var slug := Strip(slug);
    if |name| == 0 || |slug| == 0 then
      Outcome(Invalid, s)
    else if FindEventBySlug(s.events, slug).Some? then
      Outcome(Conflict, s)
    else
      InsertEventAppends(s, name, slug);
      Outcome(Ok, InsertEvent(s, name, slug))
  }

  /** `delete_event`: an id too wide for SQLite is a 500, an unknown id is
      a 404; otherwise the event goes, and with it (the
      `cascade="all, delete-orphan"` relationship) every wish that
      references it. Nothing else is touched. */
  function DeleteEvent(s: Db, id: nat): (r: Outcome)
    ensures r.status == Ok || r.status == NotFound || r.status == ServerError
    ensures r.status == ServerError <==> id > MaxSqliteInt
    ensures r.status == NotFound <==> id <= MaxSqliteInt && id !in EventIds(s.events)
    ensures r.status != Ok ==> r.store == s
    ensures r.status == Ok ==> r.store == DeleteEventCascade(s, id)
    ensures r.status == Ok ==>
      && (forall e :: e in r.store.events <==> e in s.events && e.id != id)
      && (forall w :: w in r.store.wishes <==> w in s.wishes && w.eventId != id)
      && |r.store.events| < |s.events|
      && r.store.clock == s.clock
  {
    if id > MaxSqliteInt then Outcome(ServerError, s)
    else match FindEventById(s.events, id)
    case None => Outcome(NotFound, s)
    case Some(ev) =>
      assert ev in s.events;
      Outcome(Ok, DeleteEventCascade(s, ev.id))
  }

  /** `sender_name or 'Ẩn danh'` on the stripped field: the stripped name,
      or the anonymous name when the field is blank. Never blank itself. */
  function SenderOf(senderName: string): (r: string)
    ensures IsFilled(r)
    ensures |Strip(senderName)| > 0 ==> r == Strip(senderName)
    ensures |Strip(senderName)| == 0 ==> r == AnonymousSender
  {
    AnonymousSenderIsFilled();
    var sender := Strip(senderName);
    if |sender| == 0 then AnonymousSender else sender
  }

  /** `submit_wish`: an unknown slug is a 404 (checked before the form is
      read); a blank message is refused; otherwise exactly one wish is
      appended on that event, carrying the stripped message and the sender
      name SenderOf gives. */
  function SubmitWish(s: Db, slug: string, senderName: string, message: string): (r: Outcome)
    ensures r.status != Conflict
    ensures r.status != Ok ==> r.store == s
    ensures r.status == NotFound <==> forall e :: e in s.events ==> e.slug != slug
    ensures r.status == Invalid <==> (exists e :: e in s.events && e.slug == slug) && |Strip(message)| == 0
    ensures r.status == Ok <==> (exists e :: e in s.events && e.slug == slug) && |Strip(message)| > 0
    ensures r.status == Ok ==>
      r.store == InsertWish(s, FindEventBySlug(s.events, slug).value.id, SenderOf(senderName), Strip(message))
    ensures r.status == Ok ==>
      && r.store.events == s.events
      && |r.store.wishes| == |s.wishes| + 1
      && r.store.wishes[..|s.wishes|] == s.wishes
      && var w := r.store.wishes[|s.wishes|];
        && w.eventId == FindEventBySlug(s.events, slug).value.id
        && w.message == Strip(message)
        && IsFilled(w.message)
        && IsFilled(w.senderName)
  {
    match FindEventBySlug(s.events, slug)
    case None => Outcome(NotFound, s)
    case Some(ev) =>
      var message := Strip(message);
      if |message| == 0 then
        Outcome(Invalid, s)
      else
        Outcome(Ok, InsertWish(s, ev.id, SenderOf(senderName), message))
  }

  /** `admin_delete_wish`: the slug must name an event (else a 404), the
      wish id must fit SQLite's INTEGER (else a 500) and name a wish of that
      event; a wish of another event is a 404 just like a missing one.
      Otherwise that row, and nothing else, is deleted. */
  function DeleteWish(s: Db, slug: string, wishId: nat): (r: Outcome)
    ensures r.status == Ok || r.status == NotFound || r.status == ServerError
    ensures r.status != Ok ==> r.store == s
    ensures r.status == ServerError <==> FindEventBySlug(s.events, slug).Some? && wishId > MaxSqliteInt
    ensures r.status == Ok <==>
      && FindEventBySlug(s.events, slug).Some?
      && wishId <= MaxSqliteInt
      && exists w :: w in s.wishes && w.id == wishId && w.eventId == FindEventBySlug(s.events, slug).value.id
    ensures r.status == Ok ==> r.store == DeleteWishRow(s, wishId)
    ensures r.status == Ok ==>
      && r.store.events == s.events
      && (forall w :: w in r.store.wishes <==> w in s.wishes && w.id != wishId)
      && |r.store.wishes| < |s.wishes|
      && r.store.clock == s.clock
  {
    match FindEventBySlug(s.events, slug)
    case None => Outcome(NotFound, s)
    case Some(ev) =>
      if wishId > MaxSqliteInt then Outcome(ServerError, s)
      else match FindFirst(s.wishes, (w: Wish) => w.id == wishId && w.eventId == ev.id)
      case None => Outcome(NotFound, s)
      case Some(w) =>
        assert w in s.wishes;
        Outcome(Ok, DeleteWishRow(s, w.id))
  }

  // ---------------------------------------------------------------------
  // The store invariant is preserved by every handler
  // ---------------------------------------------------------------------

  lemma CreateEventPreservesValid(s: Db, name: string, slug: string)
    requires Valid(s)
    ensures Valid(CreateEvent(s, name, slug).store)
  {
    if CreateEvent(s, name, slug).status == Ok {
      InsertEventKeepsValid(s, Strip(name), Strip(slug));
    }
  }

  lemma SubmitWishPreservesValid(s: Db, slug: string, senderName: string, message: string)
    requires Valid(s)
    ensures Valid(SubmitWish(s, slug, senderName, message).store)
  {
    if SubmitWish(s, slug, senderName, message).status == Ok {
      var ev := FindEventBySlug(s.events, slug).value;
      assert ev.id in EventIds(s.events);
      InsertWishKeepsValid(s, ev.id, SenderOf(senderName), Strip(message));
    }
  }

  lemma DeleteEventPreservesValid(s: Db, id: nat)
    requires Valid(s)
    ensures Valid(DeleteEvent(s, id).store)
  {
    DeleteEventCascadeKeepsValid(s, id);
  }

  lemma DeleteWishPreservesValid(s: Db, slug: string, wishId: nat)
    requires Valid(s)
    ensures Valid(DeleteWish(s, slug, wishId).store)
  {
    DeleteWishRowKeepsValid(s, wishId);
  }

  // ---------------------------------------------------------------------
  // Handler behaviour over more than one call
  // ---------------------------------------------------------------------

  /** A second `create_event` with the same (stripped) slug is refused, so
      two such requests add one event, not two. */
  lemma SecondCreateWithSameSlugConflicts(s: Db, name: string, slug: string, name2: string, slug2: string)
    requires CreateEvent(s, name, slug).status == Ok
    requires Strip(slug2) == Strip(slug) && |Strip(name2)| > 0
    ensures var t := CreateEvent(s, name, slug).store;
      && CreateEvent(t, name2, slug2).status == Conflict
      && |CreateEvent(t, name2, slug2).store.events| == |s.events| + 1
  {
    var t := CreateEvent(s, name, slug).store;
    assert t.events[|s.events|] in t.events;
  }

  /** A filled message left on a known event with a blank sender field is
      stored, under the anonymous sender name. */
  lemma BlankSenderWishIsStoredAnonymously(s: Db, slug: string, message: string)
    requires exists e :: e in s.events && e.slug == slug
    requires |Strip(message)| > 0
    ensures var r := SubmitWish(s, slug, "", message);
      && r.status == Ok
      && |r.store.wishes| == |s.wishes| + 1
      && r.store.wishes[|s.wishes|].senderName == AnonymousSender
      && r.store.wishes[|s.wishes|].message == Strip(message)
  {
    assert |Strip("")| == 0;
  }

  /** A wish id that belongs to another event than the slug's is a 404 (a
      500 if it is too wide for SQLite) and nothing is deleted. */
  lemma DeleteWishOfOtherEventIsNotFound(s: Db, slug: string, wishId: nat, e: Event, w: Wish)
    requires Valid(s)
    requires e in s.events && e.slug == slug
    requires w in s.wishes && w.id == wishId && w.eventId != e.id
    ensures DeleteWish(s, slug, wishId) == Outcome(if wishId <= MaxSqliteInt then NotFound else ServerError, s)
  {
    SlugLookupFinds(s.events, e);
    forall x | x in s.wishes && x.id == wishId ensures x.eventId != e.id {
      WishIdsDetermineRows(s.wishes, x, w);
    }
  }

  /** A successful `admin_delete_wish` removes exactly one row, the one
      carrying the id, and keeps every other row in place. */
  lemma DeleteWishRemovesExactlyOne(s: Db, slug: string, wishId: nat)
    requires Valid(s)
    requires DeleteWish(s, slug, wishId).status == Ok
    ensures exists k :: 0 <= k < |s.wishes| && s.wishes[k].id == wishId && RemovedAt(s.wishes, DeleteWish(s, slug, wishId).store.wishes, k)
  {
    var k := DeletedWishIndex(s, slug, wishId);
    DeleteWishRowRemovesOne(s, k);
  }

  /** Where in the wish table the row a successful `admin_delete_wish`
      removes sits. */
  lemma DeletedWishIndex(s: Db, slug: string, wishId: nat) returns (k: nat)
    requires DeleteWish(s, slug, wishId).status == Ok
    ensures k < |s.wishes| && s.wishes[k].id == wishId
    ensures DeleteWish(s, slug, wishId).store == DeleteWishRow(s, s.wishes[k].id)
  {
    var w :| w in s.wishes && w.id == wishId;
    k :| k < |s.wishes| && s.wishes[k] == w;
  }
}
