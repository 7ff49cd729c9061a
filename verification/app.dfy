/** The application as a whole: a request is one of the four mutating
    routes, handling it is the matching transition, and any sequence of
    requests run from a fresh database keeps the store invariant. */
module App {
  import opened Store
  import opened Handlers
  import opened Views

  datatype Request =
    | CreateEventRequest(name: string, slug: string)
    | DeleteEventRequest(eventId: nat)
    | SubmitWishRequest(slug: string, senderName: string, message: string)
    | DeleteWishRequest(slug: string, wishId: nat)

  /** Dispatches a request to its route handler. A refused request (a
      notice, a 404 or a 500) writes nothing. */
  function Handle(s: Db, req: Request): (r: Outcome)
    ensures r.status != Ok ==> r.store == s
    ensures |r.store.events| <= |s.events| + 1 && |r.store.wishes| <= |s.wishes| + 1
    ensures s.clock <= r.store.clock
    ensures req.CreateEventRequest? ==> r == CreateEvent(s, req.name, req.slug)
    ensures req.DeleteEventRequest? ==> r == DeleteEvent(s, req.eventId)
    ensures req.SubmitWishRequest? ==> r == SubmitWish(s, req.slug, req.senderName, req.message)
    ensures req.DeleteWishRequest? ==> r == DeleteWish(s, req.slug, req.wishId)
  {
    match req
    case CreateEventRequest(name, slug) => CreateEvent(s, name, slug)
    case DeleteEventRequest(id) => DeleteEvent(s, id)
    case SubmitWishRequest(slug, senderName, message) => SubmitWish(s, slug, senderName, message)
    case DeleteWishRequest(slug, wishId) => DeleteWish(s, slug, wishId)
  }

  /** Every handler keeps the store invariant. */
  lemma HandlePreservesValid(s: Db, req: Request)
    requires Valid(s)
    ensures Valid(Handle(s, req).store)
  {
    match req
    case CreateEventRequest(name, slug) => CreateEventPreservesValid(s, name, slug);
    case DeleteEventRequest(id) => DeleteEventPreservesValid(s, id);
    case SubmitWishRequest(slug, senderName, message) => SubmitWishPreservesValid(s, slug, senderName, message);
    case DeleteWishRequest(slug, wishId) => DeleteWishPreservesValid(s, slug, wishId);
  }

  /** The store after handling the requests one after the other. Each
      request adds at most one row to each table, and the clock never goes
      back. */
  function Run(s: Db, reqs: seq<Request>): (t: Db)
    ensures |t.events| <= |s.events| + |reqs|
    ensures |t.wishes| <= |s.wishes| + |reqs|
    ensures s.clock <= t.clock
    decreases |reqs|
  {
    if |reqs| == 0 then s else Run(Handle(s, reqs[0]).store, reqs[1..])
  }

  /** Running two batches of requests one after the other is running their
      concatenation. */
  lemma {:induction false} RunConcat(s: Db, a: seq<Request>, b: seq<Request>)
    ensures Run(s, a + b) == Run(Run(s, a), b)
    decreases |a|
  {
    if |a| > 0 {
      assert (a + b)[0] == a[0];
      assert (a + b)[1..] == a[1..] + b;
      RunConcat(Handle(s, a[0]).store, a[1..], b);
    } else {
      assert a + b == b;
    }
  }

  /** Running any sequence of requests keeps the store invariant. */
  lemma {:induction false} RunPreservesValid(s: Db, reqs: seq<Request>)
    requires Valid(s)
    ensures Valid(Run(s, reqs))
    decreases |reqs|
  {
    if |reqs| > 0 {
      HandlePreservesValid(s, reqs[0]);
      RunPreservesValid(Handle(s, reqs[0]).store, reqs[1..]);
    }
  }

  /** Every store the application can reach from a fresh database has
      unique slugs, no orphan wish and no blank message. */
  lemma ReachableIsValid(reqs: seq<Request>)
    ensures Valid(Run(Empty, reqs))
    ensures SlugsUnique(Run(Empty, reqs).events)
    ensures forall w :: w in Run(Empty, reqs).wishes ==> w.eventId in EventIds(Run(Empty, reqs).events)
    ensures forall w :: w in Run(Empty, reqs).wishes ==> |w.message| > 0
  {
    EmptyIsValid();
    RunPreservesValid(Empty, reqs);
  }

  /** After `delete_event` succeeds, the event is gone and so is every one
      of its wishes: no view can find either of them any more. */
  lemma DeleteEventRemovesItsWishes(s: Db, id: nat, slug: string)
    requires Valid(s)
    requires DeleteEvent(s, id).status == Ok
    requires exists e :: e in s.events && e.id == id && e.slug == slug
    ensures var t := DeleteEvent(s, id).store;
      && FindEventById(t.events, id).None?
      && (forall w :: w in t.wishes ==> w.eventId != id)
      && AdminView(t, slug).None?
  {
    var t := DeleteEvent(s, id).store;
    var e :| e in s.events && e.id == id && e.slug == slug;
    forall x | x in t.events ensures x.slug != slug {
      assert x != e;
    }
  }
}
