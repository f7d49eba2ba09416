/**
  * The master list page (client/pages/MasterAdmin.tsx): the list of events with
  * their confirmation counts, the local updates it makes after a delete or an
  * edit instead of reloading, the update request it builds from the edit form,
  * and the confirmation total it shows.
  */
module MasterAdminPage {

  import opened Options
  import opened Seqs
  import opened Text
  import opened Events

  /** An entry of the list: an event row with its `total_confirmations` column. */
  datatype EventWithStats = EventWithStats(event: Event, totalConfirmations: nat)

  function EntryId(w: EventWithStats): nat { w.event.id }

  function EntryIdIs(id: nat): EventWithStats -> bool {
    (w: EventWithStats) => w.event.id == id
  }

  function EntryIdIsNot(id: nat): EventWithStats -> bool {
    (w: EventWithStats) => w.event.id != id
  }

  /** An event with the number of its confirmations, the `COUNT(c.id)` of the left join. */
  function StatsOf(cs: seq<Confirmation>): Event -> EventWithStats {
    (e: Event) => EventWithStats(e, |Filter(ForEvent(e.id), cs)|)
  }

  /** The rows `getMasterAdminData` returns for the two tables, in table order. */
  function MasterRows(events: seq<Event>, cs: seq<Confirmation>): seq<EventWithStats> {
    Map(StatsOf(cs), events)
  }

  // ---------------------------------------------------------------------------
  // After a delete
  // ---------------------------------------------------------------------------

  /** `events.filter(event => event.id !== eventId)`. */
  function AfterDelete(list: seq<EventWithStats>, id: nat): (r: seq<EventWithStats>)
    ensures forall w :: w in r <==> w in list && w.event.id != id
  {
    Filter(EntryIdIsNot(id), list)
  }

  /** `(total_events || 1) - 1`: zero stays zero, anything else goes down by one. */
  function TotalAfterDelete(total: nat): nat {
    (if total == 0 then 1 else total) - 1
  }

  /** With distinct ids, an id in the list is held by exactly one entry. */
  lemma OneEntryPerId(list: seq<EventWithStats>, w: EventWithStats)
    requires DistinctBy(list, EntryId) && w in list
    ensures |Filter(EntryIdIs(w.event.id), list)| == 1
  {
    var gone := Filter(EntryIdIs(w.event.id), list);
    assert w in gone;
    FilterKeepsDistinct(EntryIdIs(w.event.id), EntryId, list);
    if |gone| > 1 {
      assert false;
    }
  }

  /**
    * When the count matched the list and the deleted id was in it, the
    * decremented count matches the filtered list; when the id was not in the
    * list, the list is unchanged while a positive count still goes down.
    */
  lemma DeleteKeepsCount(list: seq<EventWithStats>, id: nat)
    requires DistinctBy(list, EntryId)
    ensures (exists w :: w in list && w.event.id == id) ==>
              TotalAfterDelete(|list|) == |AfterDelete(list, id)|
    ensures (forall w :: w in list ==> w.event.id != id) ==>
              AfterDelete(list, id) == list &&
              (|list| > 0 ==> TotalAfterDelete(|list|) == |list| - 1)
  {
    if w :| w in list && w.event.id == id {
      FilterPartition(EntryIdIsNot(id), EntryIdIs(id), list);
      OneEntryPerId(list, w);
      assert |multiset(AfterDelete(list, id))| + |multiset(Filter(EntryIdIs(id), list))| == |multiset(list)|;
    } else {
      FilterAll(EntryIdIsNot(id), list);
    }
  }

  /**
    * The filtered list is what a reload would show after `deleteEvent`: the
    * remaining events with their counts, the deleted event's rows gone.
    */
  lemma DeleteMatchesReload(events: seq<Event>, cs: seq<Confirmation>, id: nat)
    ensures AfterDelete(MasterRows(events, cs), id) ==
            MasterRows(Filter(IdIsNot(id), events), Filter(NotForEvent(id), cs))
  {
    var kept := Filter(IdIsNot(id), events);
    FilterMap(EntryIdIsNot(id), StatsOf(cs), IdIsNot(id), events);
    var before, after := Map(StatsOf(cs), kept), MasterRows(kept, Filter(NotForEvent(id), cs));
    forall k | 0 <= k < |kept| ensures before[k] == after[k] {
      assert kept[k] in kept;
      ClearKeepsOtherEvents(cs, id, kept[k].id);
    }
  }

  // ---------------------------------------------------------------------------
  // After an edit
  // ---------------------------------------------------------------------------

  /** `{ ...event, ...result.event }`: the returned row's columns win, the count column stays. */
  function Merge(w: EventWithStats, e: Event): EventWithStats {
    EventWithStats(e, w.totalConfirmations)
  }

  /** `events.map(event => event.id === editingEvent.id ? { ...event, ...result.event } : event)`. */
  function AfterEdit(list: seq<EventWithStats>, id: nat, saved: Event): (r: seq<EventWithStats>)
    ensures |r| == |list|
    ensures forall k :: 0 <= k < |r| && list[k].event.id != id ==> r[k] == list[k]
    ensures forall k :: 0 <= k < |r| && list[k].event.id == id ==>
              r[k].event == saved && r[k].totalConfirmations == list[k].totalConfirmations
  {
    Map((w: EventWithStats) => if w.event.id == id then Merge(w, saved) else w, list)
  }

  /**
    * With the row `updateEvent` answers, the edited list is what a reload would
    * show after the update: only that event changed, and no count did.
    */
  lemma EditMatchesReload(events: seq<Event>, cs: seq<Confirmation>, i: nat, req: EventRequest)
    requires DistinctBy(events, EventIdOf)
    requires i < |events| && !MissingRequired(req)
    ensures var id := events[i].id;
            AfterEdit(MasterRows(events, cs), id, EventFromRequest(id, req, events[i].linkCode)) ==
            MasterRows(ReplaceEvent(events, id, req), cs)
  {
    var id := events[i].id;
    var saved := EventFromRequest(id, req, events[i].linkCode);
    var edited, reloaded := AfterEdit(MasterRows(events, cs), id, saved), MasterRows(ReplaceEvent(events, id, req), cs);
    forall k | 0 <= k < |events| ensures edited[k] == reloaded[k] {
      if events[k].id == id {
        assert k == i;
      }
    }
  }

  // ---------------------------------------------------------------------------
  // The edit form and the update request
  // ---------------------------------------------------------------------------

  /** The edit form's fields, all text inputs. */
  datatype EditForm = EditForm(
    title: string, date: string, time: string, location: string,
    fullAddress: string, phone: string, mapsLink: string, message: string)

  /** `x || ""` on an optional column. */
  function OrEmpty(x: Option<string>): string {
    if x.None? then "" else x.value
  }

  /** `x || undefined` on a form field: an empty field is left out of the request. */
  function OrUndefined(x: string): (r: Option<string>)
    ensures r.None? <==> x == ""
    ensures r.Some? ==> r.value == x
  {
    if x == "" then None else Some(x)
  }

  /**
    * `handleEditEvent` fills the form from an entry; the date and time strings
    * come from a time-zone conversion that is not modelled and are parameters.
    */
  function EditFormOf(e: Event, date: string, time: string): EditForm {
    EditForm(e.title, date, time, e.location,
             OrEmpty(e.fullAddress), OrEmpty(e.phone), OrEmpty(e.mapsLink), OrEmpty(e.message))
  }

  /** The `UpdateEventRequest` that `handleSaveEdit` sends. */
  function BuildUpdateRequest(f: EditForm): EventRequest {
    EventRequest(Some(f.title), Some(f.date + "T" + f.time), Some(f.location),
                 OrUndefined(f.fullAddress), OrUndefined(f.phone), OrUndefined(f.mapsLink), OrUndefined(f.message))
  }

  /**
    * The server refuses the request exactly when the title or the location is
    * empty: the joined date and time always holds the "T".
    */
  lemma UpdateRefusedIff(f: EditForm)
    ensures MissingRequired(BuildUpdateRequest(f)) <==> f.title == "" || f.location == ""
  {
    var dt := f.date + "T" + f.time;
    assert dt[|f.date|] == 'T';
  }

  /** Without a "T" in either part, splitting the sent `date_time` at "T" gives back the date and the time. */
  lemma DateTimeRoundTrip(f: EditForm)
    requires 'T' !in f.date && 'T' !in f.time
    ensures Split(BuildUpdateRequest(f).dateTime.value, 'T') == [f.date, f.time]
  {
    SplitAround(f.date, f.time, 'T');
    SplitNone(f.date, 'T');
    SplitNone(f.time, 'T');
  }

  /**
    * Saving the form as it was filled stores the same row again, except for the
    * date and time, which become the form's: empty optional fields go back to NULL.
    */
  lemma UnchangedFormSavesSameEvent(e: Event, date: string, time: string)
    requires e.title != "" && e.location != ""
    requires e.fullAddress != Some("") && e.phone != Some("") && e.mapsLink != Some("") && e.message != Some("")
    ensures var req := BuildUpdateRequest(EditFormOf(e, date, time));
            !MissingRequired(req) &&
            EventFromRequest(e.id, req, e.linkCode) == e.(dateTime := date + "T" + time)
  {
    UpdateRefusedIff(EditFormOf(e, date, time));
  }

  // ---------------------------------------------------------------------------
  // The confirmation total
  // ---------------------------------------------------------------------------

  /** `reduce((total, event) => total + event.total_confirmations, 0)`. */
  function SumTotals(list: seq<EventWithStats>): nat {
    if list == [] then 0
    else SumTotals(list[..|list| - 1]) + list[|list| - 1].totalConfirmations
  }

  /** One more entry adds its count. */
  lemma SumTotalsSnoc(list: seq<EventWithStats>, w: EventWithStats)
    ensures SumTotals(list + [w]) == SumTotals(list) + w.totalConfirmations
  {
    assert (list + [w])[..|list|] == list;
  }

  /** `events?.reduce(...) || 0`: no list shows zero. */
  function ConfirmationTotal(events: Option<seq<EventWithStats>>): nat {
    match events
    case None => 0
    case Some(list) => SumTotals(list)
  }

  /** A confirmation attached to one of the events. */
  function AttachedTo(events: seq<Event>): Confirmation -> bool {
    (c: Confirmation) => HasEvent(events, c.eventId)
  }

  /** Attached to one more event with a new id: attached before, or to that event, never both. */
  lemma AttachedSnoc(es: seq<Event>, e: Event)
    requires forall x :: x in es ==> EventIdOf(x) != EventIdOf(e)
    ensures forall c :: AttachedTo(es + [e])(c) == (AttachedTo(es)(c) || ForEvent(e.id)(c))
    ensures forall c :: !(AttachedTo(es)(c) && ForEvent(e.id)(c))
  {
    forall c: Confirmation ensures AttachedTo(es + [e])(c) == (AttachedTo(es)(c) || ForEvent(e.id)(c)) {
      if HasEvent(es + [e], c.eventId) && c.eventId != e.id {
        var x :| x in es + [e] && x.id == c.eventId;
        assert x in es;
      }
      if c.eventId == e.id {
        assert e in es + [e];
      }
    }
  }

  /** Summing per-event counts counts every confirmation attached to some event once. */
  lemma {:induction false} SumCountsAttached(events: seq<Event>, cs: seq<Confirmation>)
    requires DistinctBy(events, EventIdOf)
    ensures SumTotals(MasterRows(events, cs)) == |Filter(AttachedTo(events), cs)|
    decreases |events|
  {
    if events == [] {
      FilterNone(AttachedTo(events), cs);
    } else {
      var es, e := events[..|events| - 1], events[|events| - 1];
      assert events == es + [e];
      DistinctSnocIff(es, e, EventIdOf);
      calc {
        SumTotals(MasterRows(events, cs));
        { MapSnoc(StatsOf(cs), es, e); }
        SumTotals(MasterRows(es, cs) + [StatsOf(cs)(e)]);
        { SumTotalsSnoc(MasterRows(es, cs), StatsOf(cs)(e)); }
        SumTotals(MasterRows(es, cs)) + |Filter(ForEvent(e.id), cs)|;
        { SumCountsAttached(es, cs); }
        |Filter(AttachedTo(es), cs)| + |Filter(ForEvent(e.id), cs)|;
        { AttachedSnoc(es, e);
          FilterDisjointCount(AttachedTo(es), ForEvent(e.id), AttachedTo(events), cs); }
        |Filter(AttachedTo(events), cs)|;
      }
    }
  }

  /**
    * For the tables of a consistent store the page's total is the number of
    * confirmation rows: each row belongs to exactly one listed event.
    */
  lemma TotalIsConfirmationCount(store: Store)
    requires store.Valid()
    ensures ConfirmationTotal(Some(MasterRows(store.events, store.confirmations))) == |store.confirmations|
  {
    SumCountsAttached(store.events, store.confirmations);
    FilterAll(AttachedTo(store.events), store.confirmations);
  }
}
