/** The read-only routes of app.py: the event list, the admin page, the CSV
    export and the two JSON endpoints. Each looks the event up by slug
    (`None` is the 404 of `first_or_404`) and then orders the event's wishes
    by `created_at`. Timestamps stay logical clock values and are not
    rendered. The ISO-8601 rendering keeps the order, but `%H:%M` keeps only
    the time of day: the orders stated below are of the timestamps, not of
    the rendered strings, which can tie or run backwards across midnight. */
module Views {
  import opened Seqs
  import opened Store

  /** The sort keys of `created_at.desc()`: ascending in the negated
      timestamp is descending in the timestamp. */
  function NewestEventKey(e: Event): int { -EventCreated(e) }
  function NewestKey(w: Wish): int { -WishCreated(w) }

  /** `index`: `Event.query.order_by(Event.created_at.desc())`, every event
      once, newest first. */
  function ListEvents(s: Db): (r: seq<Event>)
    ensures multiset(r) == multiset(s.events)
    ensures Ascending(r, NewestEventKey)
  {
    SortBy(s.events, NewestEventKey)
  }

  /** `Wish.query.filter_by(event_id=...).order_by(Wish.created_at.desc())`:
      exactly the wishes of that event, newest first. */
  function WishesNewestFirst(s: Db, eventId: nat): (r: seq<Wish>)
    ensures multiset(r) == multiset(WishesOf(s.wishes, eventId))
    ensures forall w :: w in r <==> w in s.wishes && w.eventId == eventId
    ensures Ascending(r, NewestKey)
  {
    var r := SortBy(WishesOf(s.wishes, eventId), NewestKey);
    assert forall w :: w in r <==> w in multiset(r);
    r
  }

  /** The same query with `.order_by(Wish.created_at.asc())`: exactly the
      wishes of that event, oldest first. */
  function WishesOldestFirst(s: Db, eventId: nat): (r: seq<Wish>)
    ensures multiset(r) == multiset(WishesOf(s.wishes, eventId))
    ensures forall w :: w in r <==> w in s.wishes && w.eventId == eventId
    ensures Ascending(r, WishCreated)
  {
    var r := SortBy(WishesOf(s.wishes, eventId), WishCreated);
    assert forall w :: w in r <==> w in multiset(r);
    r
  }

  // ---------------------------------------------------------------------
  // admin_view
  // ---------------------------------------------------------------------

  datatype AdminPage = AdminPage(event: Event, wishes: seq<Wish>)

  /** `admin_view`: the event named by the slug and all of its wishes,
      newest first. */
  function AdminView(s: Db, slug: string): (r: Option<AdminPage>)
    ensures r.None? <==> forall e :: e in s.events ==> e.slug != slug
    ensures r.Some? ==> r.value.event in s.events && r.value.event.slug == slug
    ensures r.Some? ==> multiset(r.value.wishes) == multiset(WishesOf(s.wishes, r.value.event.id))
    ensures r.Some? ==> forall w :: w in r.value.wishes <==> w in s.wishes && w.eventId == r.value.event.id
    ensures r.Some? ==> Ascending(r.value.wishes, NewestKey)
  {
    match FindEventBySlug(s.events, slug)
    case None => None
    case Some(ev) => Some(AdminPage(ev, WishesNewestFirst(s, ev.id)))
  }

  // ---------------------------------------------------------------------
  // admin_export
  // ---------------------------------------------------------------------

  /** One data row of the CSV file: the wish's id, sender, message and
      timestamp. */
  datatype CsvRow = CsvRow(id: nat, senderName: string, message: string, createdAt: nat)

  /** The downloaded file: its name, the header row and the data rows. */
  datatype CsvFile = CsvFile(fileName: string, header: seq<string>, rows: seq<CsvRow>)

  const CsvHeader: seq<string> := ["id", "sender_name", "message", "created_at"]

  function RowOf(w: Wish): CsvRow {
    CsvRow(w.id, w.senderName, w.message, w.createdAt)
  }

  function RowsOf(ws: seq<Wish>): (r: seq<CsvRow>)
    ensures |r| == |ws| && forall i :: 0 <= i < |ws| ==> r[i] == RowOf(ws[i])
  {
    seq(|ws|, i requires 0 <= i < |ws| => RowOf(ws[i]))
  }

  /** `admin_export`: a file `wishes_<slug>.csv` with the fixed header and one
      row per wish of the event, in the admin page's newest-first order. */
  function AdminExport(s: Db, slug: string): (r: Option<CsvFile>)
    ensures r.None? <==> forall e :: e in s.events ==> e.slug != slug
    ensures r.Some? ==> r.value.header == ["id", "sender_name", "message", "created_at"]
    ensures r.Some? ==> r.value.fileName == "wishes_" + slug + ".csv"
    ensures r.Some? ==>
      && AdminView(s, slug).Some?
      && |r.value.rows| == |AdminView(s, slug).value.wishes|
      && forall i :: 0 <= i < |r.value.rows| ==> r.value.rows[i] == RowOf(AdminView(s, slug).value.wishes[i])
  {
    match FindEventBySlug(s.events, slug)
    case None => None
    case Some(ev) =>
      var ws := WishesNewestFirst(s, ev.id);
      Some(CsvFile("wishes_" + ev.slug + ".csv", CsvHeader, RowsOf(ws)))
  }

  // ---------------------------------------------------------------------
  // api_summary
  // ---------------------------------------------------------------------

  /** How many of the newest wishes the summary carries (`.limit(5)`). */
  const SummaryLimit: nat := 5

  datatype SummaryItem = SummaryItem(sender: string, message: string, when: nat)
  datatype Summary = Summary(event: string, slug: string, total: nat, last5: seq<SummaryItem>)

  function SummaryItemOf(w: Wish): SummaryItem {
    SummaryItem(w.senderName, w.message, w.createdAt)
  }

  function SummaryItemsOf(ws: seq<Wish>): (r: seq<SummaryItem>)
    ensures |r| == |ws| && forall i :: 0 <= i < |ws| ==> r[i] == SummaryItemOf(ws[i])
  {
    seq(|ws|, i requires 0 <= i < |ws| => SummaryItemOf(ws[i]))
  }

  /** `api_summary`: the event's name and slug, its number of wishes and the
      first `min(5, total)` entries of the admin page's newest-first list. */
  function ApiSummary(s: Db, slug: string): (r: Option<Summary>)
    ensures r.None? <==> forall e :: e in s.events ==> e.slug != slug
    ensures r.Some? ==>
      && AdminView(s, slug).Some?
      && var page := AdminView(s, slug).value;
        && r.value.event == page.event.name
        && r.value.slug == page.event.slug
        && r.value.total == |WishesOf(s.wishes, page.event.id)|
        && r.value.total == |page.wishes|
        && |r.value.last5| == (if r.value.total < SummaryLimit then r.value.total else SummaryLimit)
        && forall i :: 0 <= i < |r.value.last5| ==> r.value.last5[i] == SummaryItemOf(page.wishes[i])
  {
    match FindEventBySlug(s.events, slug)
    case None => None
    case Some(ev) =>
      var total := |WishesOf(s.wishes, ev.id)|;
      var newest := WishesNewestFirst(s, ev.id);
      assert |newest| == total by {
        assert |multiset(newest)| == |multiset(WishesOf(s.wishes, ev.id))|;
      }
      Some(Summary(ev.name, ev.slug, total, SummaryItemsOf(Take(newest, SummaryLimit))))
  }

  // ---------------------------------------------------------------------
  // api_wishes
  // ---------------------------------------------------------------------

  datatype WishItem = WishItem(id: nat, sender: string, message: string, when: nat)
  datatype WishList = WishList(eventName: string, slug: string, total: nat, wishes: seq<WishItem>)

  function WishItemOf(w: Wish): WishItem {
    WishItem(w.id, w.senderName, w.message, w.createdAt)
  }

  function WishItemsOf(ws: seq<Wish>): (r: seq<WishItem>)
    ensures |r| == |ws| && forall i :: 0 <= i < |ws| ==> r[i] == WishItemOf(ws[i])
  {
    seq(|ws|, i requires 0 <= i < |ws| => WishItemOf(ws[i]))
  }

  /** `api_wishes`: the event's name and slug and every one of its wishes,
      oldest first, with `total` their number. */
  function ApiWishes(s: Db, slug: string): (r: Option<WishList>)
    ensures r.None? <==> forall e :: e in s.events ==> e.slug != slug
    ensures r.Some? ==>
      && FindEventBySlug(s.events, slug).Some?
      && var ev := FindEventBySlug(s.events, slug).value;
      && var ws := WishesOldestFirst(s, ev.id);
        && r.value.eventName == ev.name
        && r.value.slug == ev.slug
        && r.value.total == |r.value.wishes|
        && |r.value.wishes| == |ws|
        && (forall i :: 0 <= i < |ws| ==> r.value.wishes[i] == WishItemOf(ws[i]))
        && (forall i, j :: 0 <= i < j < |ws| ==> r.value.wishes[i].when <= r.value.wishes[j].when)
  {
    match FindEventBySlug(s.events, slug)
    case None => None
    case Some(ev) =>
      var items := WishItemsOf(WishesOldestFirst(s, ev.id));
      Some(WishList(ev.name, ev.slug, |items|, items))
  }

  // ---------------------------------------------------------------------
  // How the views relate in a valid store
  // ---------------------------------------------------------------------

  /** With no two rows sharing a timestamp, the oldest-first order is the
      table's own rowid order, and the newest-first order is its reverse. */
  lemma NewestFirstIsReverseOfOldestFirst(s: Db, eventId: nat)
    requires Valid(s)
    ensures WishesOldestFirst(s, eventId) == WishesOf(s.wishes, eventId)
    ensures WishesNewestFirst(s, eventId) == Reverse(WishesOldestFirst(s, eventId))
  {
    var own := WishesOf(s.wishes, eventId);
    FilterKeepsOrder(s.wishes, (w: Wish) => w.eventId == eventId, WishCreated);
    assert StrictlyAscending(own, WishCreated);
    SortedPermutationUnique(own, SortBy(own, WishCreated), WishCreated);
    ReverseFlipsOrder(own, WishCreated, NewestKey);
    SortedPermutationUnique(Reverse(own), SortBy(own, NewestKey), NewestKey);
  }

  /** The admin page and `api_wishes` list the same wishes, in opposite
      orders, and all three of admin page, summary and `api_wishes` agree
      on the total. */
  lemma AdminViewReversesApiWishes(s: Db, slug: string)
    requires Valid(s)
    requires exists e :: e in s.events && e.slug == slug
    ensures AdminView(s, slug).Some? && ApiWishes(s, slug).Some? && ApiSummary(s, slug).Some?
    ensures var page := AdminView(s, slug).value.wishes;
      var api := ApiWishes(s, slug).value.wishes;
      && |api| == |page|
      && ApiSummary(s, slug).value.total == |page|
      && forall i :: 0 <= i < |page| ==> api[i] == WishItemOf(page[|page| - 1 - i])
  {
    var ev := FindEventBySlug(s.events, slug).value;
    NewestFirstIsReverseOfOldestFirst(s, ev.id);
    var oldest := WishesOldestFirst(s, ev.id);
    var page := AdminView(s, slug).value.wishes;
    var api := ApiWishes(s, slug).value.wishes;
    ItemsOfReversed(api, oldest, page);
  }

  lemma ItemsOfReversed(items: seq<WishItem>, ws: seq<Wish>, rev: seq<Wish>)
    requires |items| == |ws| && forall i :: 0 <= i < |ws| ==> items[i] == WishItemOf(ws[i])
    requires rev == Reverse(ws)
    ensures |items| == |rev|
    ensures forall i :: 0 <= i < |rev| ==> items[i] == WishItemOf(rev[|rev| - 1 - i])
  {
  }

  /** With strictly increasing timestamps, the event list is the event table
      read backwards. */
  lemma ListEventsIsReverseOfTable(s: Db)
    requires Valid(s)
    ensures ListEvents(s) == Reverse(s.events)
  {
    ReverseFlipsOrder(s.events, EventCreated, NewestEventKey);
    SortedPermutationUnique(Reverse(s.events), SortBy(s.events, NewestEventKey), NewestEventKey);
  }
}
