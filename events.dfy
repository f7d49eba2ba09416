/**
  * The request handlers of server/routes/events.ts over an in-memory copy of the
  * two tables (`events` and `confirmations`). Each SQL statement a handler runs
  * becomes a step on the fields of `Store`; the random link code and family batch
  * id are parameters.
  */
module Events {

  import opened Options
  import opened Seqs
  import opened Text
  import opened NameMatcher

  /** A row of the `events` table. */
  datatype Event = Event(
    id: nat,
    title: string,
    dateTime: string,
    location: string,
    fullAddress: Option<string>,
    phone: Option<string>,
    mapsLink: Option<string>,
    message: Option<string>,
    linkCode: string)

  /** A row of the `confirmations` table (its `confirmed_at` timestamp is not modelled). */
  datatype Confirmation = Confirmation(id: nat, eventId: nat, guestName: string, familyBatchId: Option<string>)

  /** What the read handlers select of a confirmation: `id, guest_name` and no batch id. */
  datatype ConfirmationView = ConfirmationView(id: nat, guestName: string)

  /** The body of a create or update request; a field the client left out is `None`. */
  datatype EventRequest = EventRequest(
    title: Option<string>,
    dateTime: Option<string>,
    location: Option<string>,
    fullAddress: Option<string>,
    phone: Option<string>,
    mapsLink: Option<string>,
    message: Option<string>)

  const FieldsRequiredMessage := "Título, data/hora e local são obrigatórios"
  const EventNotFoundMessage := "Evento não encontrado"

  /** `!x` on an optional string: absent or empty. */
  predicate Falsy(x: Option<string>) {
    x.None? || x.value == ""
  }

  /** `x || null`: an empty or absent optional field is stored as NULL. */
  function OrNull(x: Option<string>): (r: Option<string>)
    ensures r.None? <==> Falsy(x)
    ensures r.Some? ==> r == x && r.value != ""
  {
    if Falsy(x) then None else x
  }

  /** `!title || !date_time || !location`. */
  predicate MissingRequired(req: EventRequest) {
    Falsy(req.title) || Falsy(req.dateTime) || Falsy(req.location)
  }

  /** The row the INSERT of `createEvent` and the UPDATE of `updateEvent` write for a request. */
  function EventFromRequest(id: nat, req: EventRequest, linkCode: string): (e: Event)
    requires !MissingRequired(req)
    ensures e.id == id && e.linkCode == linkCode
    ensures Some(e.title) == req.title && Some(e.dateTime) == req.dateTime && Some(e.location) == req.location
    ensures e.title != "" && e.dateTime != "" && e.location != ""
    ensures e.fullAddress != Some("") && e.phone != Some("") && e.mapsLink != Some("") && e.message != Some("")
    ensures e.fullAddress.Some? ==> e.fullAddress == req.fullAddress
    ensures e.phone.Some? ==> e.phone == req.phone
    ensures e.mapsLink.Some? ==> e.mapsLink == req.mapsLink
    ensures e.message.Some? ==> e.message == req.message
  {
    Event(id, req.title.value, req.dateTime.value, req.location.value,
          OrNull(req.fullAddress), OrNull(req.phone), OrNull(req.mapsLink), OrNull(req.message),
          linkCode)
  }

  // ---------------------------------------------------------------------------
  // Queries
  // ---------------------------------------------------------------------------

  function EventIdOf(e: Event): nat { e.id }
  function LinkCodeOf(e: Event): string { e.linkCode }
  function ConfirmationIdOf(c: Confirmation): nat { c.id }
  /** The pair an exact-duplicate check compares: event and guest name. */
  function GuestKeyOf(c: Confirmation): (nat, string) { (c.eventId, c.guestName) }

  /** Two rows that may both be stored: different ids, and not one name twice for one event. */
  predicate Compatible(c: Confirmation, d: Confirmation) {
    c.id != d.id && GuestKeyOf(c) != GuestKeyOf(d)
  }

  /** No two confirmation rows share an id, or an event and a guest name. */
  ghost predicate UniqueRows(cs: seq<Confirmation>)
    decreases |cs|
  {
    cs != [] ==>
      UniqueRows(cs[..|cs| - 1]) && forall k :: 0 <= k < |cs| - 1 ==> Compatible(cs[k], cs[|cs| - 1])
  }

  lemma {:induction false} UniqueRowsByKeys(cs: seq<Confirmation>)
    ensures UniqueRows(cs) <==> DistinctBy(cs, ConfirmationIdOf) && DistinctBy(cs, GuestKeyOf)
    decreases |cs|
  {
    if cs != [] {
      var init := cs[..|cs| - 1];
      var last := cs[|cs| - 1];
      assert cs == init + [last];
      UniqueRowsByKeys(init);
      DistinctSnocIff(init, last, ConfirmationIdOf);
      DistinctSnocIff(init, last, GuestKeyOf);
    }
  }

  function HasCode(code: string): Event -> bool {
    (e: Event) => e.linkCode == code
  }

  function IdIsNot(id: nat): Event -> bool {
    (e: Event) => e.id != id
  }

  function ForEvent(id: nat): Confirmation -> bool {
    (c: Confirmation) => c.eventId == id
  }

  function NotForEvent(id: nat): Confirmation -> bool {
    (c: Confirmation) => c.eventId != id
  }

  predicate HasEvent(events: seq<Event>, id: nat) {
    exists e :: e in events && e.id == id
  }

  /** `SELECT ... FROM events WHERE link_code = ?`, first row. */
  function FindByCode(events: seq<Event>, code: string): (r: Option<Event>)
    ensures r.None? <==> forall e :: e in events ==> e.linkCode != code
    ensures r.Some? ==> r.value in events && r.value.linkCode == code
  {
    var found := Filter(HasCode(code), events);
    if found == [] then None
    else
      assert found[0] in found;
      Some(found[0])
  }

  /** `SELECT guest_name FROM confirmations WHERE event_id = ?`, in table order. */
  function NamesOf(cs: seq<Confirmation>, eventId: nat): seq<string>
    decreases |cs|
  {
    if cs == [] then []
    else (if cs[0].eventId == eventId then [cs[0].guestName] else []) + NamesOf(cs[1..], eventId)
  }

  /** A name is among an event's names exactly when some row of that event holds it. */
  lemma {:induction false} NamesOfMember(cs: seq<Confirmation>, eventId: nat, n: string)
    ensures n in NamesOf(cs, eventId) <==> exists c :: c in cs && c.eventId == eventId && c.guestName == n
    decreases |cs|
  {
    if cs != [] {
      NamesOfMember(cs[1..], eventId, n);
      assert forall c :: c in cs ==> c == cs[0] || c in cs[1..];
    }
  }

  /** A new row adds its name to the names of its own event and of no other. */
  lemma {:induction false} NamesOfSnoc(cs: seq<Confirmation>, c: Confirmation, eventId: nat)
    ensures NamesOf(cs + [c], eventId) ==
            NamesOf(cs, eventId) + (if c.eventId == eventId then [c.guestName] else [])
    decreases |cs|
  {
    if cs == [] {
      assert [] + [c] == [c];
    } else {
      var x, rest := cs[0], cs[1..];
      assert cs == [x] + rest;
      assert cs + [c] == [x] + (rest + [c]);
      NamesOfSnoc(rest, c, eventId);
      NamesOfCons(x, rest + [c], eventId);
      NamesOfCons(x, rest, eventId);
    }
  }

  /** The names of rows with a given first row. */
  lemma NamesOfCons(x: Confirmation, cs: seq<Confirmation>, eventId: nat)
    ensures NamesOf([x] + cs, eventId) ==
            (if x.eventId == eventId then [x.guestName] else []) + NamesOf(cs, eventId)
  {
    assert ([x] + cs)[1..] == cs;
  }

  /** What the admin page receives for one confirmation. */
  function ViewOf(c: Confirmation): ConfirmationView {
    ConfirmationView(c.id, c.guestName)
  }

  /** The rows of one family call: consecutive ids, the event, the names in order, one batch id. */
  function BatchRows(eventId: nat, names: seq<string>, batchId: string, firstId: nat): (r: seq<Confirmation>)
    ensures |r| == |names|
    decreases |names|
  {
    if names == [] then []
    else
      var last := |names| - 1;
      BatchRows(eventId, names[..last], batchId, firstId) +
      [Confirmation(firstId + last, eventId, names[last], Some(batchId))]
  }

  lemma BatchRowsSnoc(eventId: nat, names: seq<string>, name: string, batchId: string, firstId: nat)
    ensures BatchRows(eventId, names + [name], batchId, firstId) ==
            BatchRows(eventId, names, batchId, firstId) +
            [Confirmation(firstId + |names|, eventId, name, Some(batchId))]
  {
    assert (names + [name])[..|names|] == names;
  }

  /**
    * One family member judged against the rows as they stand, where those rows are
    * `cs0` followed by the rows this call inserted: the verdict is the one against
    * the names of `cs0` plus the inserted names, and an insert extends the batch.
    */
  lemma BatchStep(eventId: nat, name: string, batchId: string, cs0: seq<Confirmation>,
                  inserted: seq<string>, firstId: nat, v: MemberVerdict,
                  before: seq<Confirmation>, after: seq<Confirmation>)
    requires before == cs0 + BatchRows(eventId, inserted, batchId, firstId)
    requires v == JudgeFamilyMember(name, NamesOf(before, eventId))
    requires v != MemberInsert ==> after == before
    requires v == MemberInsert ==>
               after == before + [Confirmation(firstId + |inserted|, eventId, name, Some(batchId))]
    ensures v == JudgeFamilyMember(name, NamesOf(cs0, eventId) + inserted)
    ensures var now := if v == MemberInsert then inserted + [name] else inserted;
            after == cs0 + BatchRows(eventId, now, batchId, firstId)
  {
    NamesOfBatch(cs0, eventId, inserted, batchId, firstId);
    if v == MemberInsert {
      AppendSnoc(cs0, BatchRows(eventId, inserted, batchId, firstId),
                 Confirmation(firstId + |inserted|, eventId, name, Some(batchId)));
      BatchRowsSnoc(eventId, inserted, name, batchId, firstId);
    }
  }

  /** Row `k` of a family call holds name `k`, id `firstId + k`, the event and the batch id. */
  lemma {:induction false} BatchRowsAt(eventId: nat, names: seq<string>, batchId: string, firstId: nat)
    ensures var r := BatchRows(eventId, names, batchId, firstId);
            forall k :: 0 <= k < |r| ==>
              r[k] == Confirmation(firstId + k, eventId, names[k], Some(batchId))
    decreases |names|
  {
    if names != [] {
      var last := |names| - 1;
      BatchRowsAt(eventId, names[..last], batchId, firstId);
    }
  }

  /** The rows of a family call add exactly its names, in order, to its event's names. */
  lemma {:induction false} NamesOfBatch(cs: seq<Confirmation>, eventId: nat, names: seq<string>,
                                        batchId: string, firstId: nat)
    ensures NamesOf(cs + BatchRows(eventId, names, batchId, firstId), eventId) == NamesOf(cs, eventId) + names
    decreases |names|
  {
    if names != [] {
      var last := |names| - 1;
      var init := names[..last];
      var c := Confirmation(firstId + last, eventId, names[last], Some(batchId));
      NamesOfBatch(cs, eventId, init, batchId, firstId);
      assert cs + BatchRows(eventId, names, batchId, firstId) == (cs + BatchRows(eventId, init, batchId, firstId)) + [c];
      NamesOfSnoc(cs + BatchRows(eventId, init, batchId, firstId), c, eventId);
      assert NamesOf(cs + BatchRows(eventId, names, batchId, firstId), eventId)
          == (NamesOf(cs, eventId) + init) + [names[last]];
      assert init + [names[last]] == names;
    } else {
      assert cs + [] == cs;
    }
  }

  // ---------------------------------------------------------------------------
  // Outcomes and messages
  // ---------------------------------------------------------------------------

  /** `!guest_name || guest_name.trim().length === 0`. */
  predicate Blank(guestName: Option<string>) {
    guestName.None? || Trim(guestName.value) == ""
  }

  /** The answer of `confirmGuest`. */
  datatype GuestOutcome =
    | GuestNameRequired
    | GuestEventNotFound
    | Judged(verdict: GuestVerdict)

  /** `confirmGuest` without its side effect: blank name, unknown event, then the matcher. */
  function GuestDecision(events: seq<Event>, cs: seq<Confirmation>, code: string, guestName: Option<string>): (o: GuestOutcome)
    ensures o == GuestNameRequired <==> Blank(guestName)
    ensures o == GuestEventNotFound <==> !Blank(guestName) && FindByCode(events, code).None?
    ensures o.Judged? ==>
              !Blank(guestName) && FindByCode(events, code).Some? &&
              (o.verdict == Duplicate <==> Trim(guestName.value) in NamesOf(cs, FindByCode(events, code).value.id))
  {
    if Blank(guestName) then GuestNameRequired
    else match FindByCode(events, code)
      case None => GuestEventNotFound
      case Some(e) => Judged(JudgeGuest(Trim(guestName.value), NamesOf(cs, e.id)))
  }

  /** The `message` field of the response of `confirmGuest`. */
  function GuestMessage(o: GuestOutcome): string {
    match o
    case GuestNameRequired => "Nome é obrigatório"
    case GuestEventNotFound => EventNotFoundMessage
    case Judged(Duplicate) => "Você já confirmou presença para este evento"
    case Judged(NeedsFullName(existing)) => NeedsFullNameMessage(existing)
    case Judged(NeedsMoreDetail(existing)) => NeedsMoreDetailMessage(existing)
    case Judged(Accept) => ConfirmedMessage
  }

  /** The one-word rule's answer. */
  function NeedsFullNameMessage(existing: string): string {
    "Já existe \"" + existing + "\" na lista. Por favor, digite seu " + "nome completo" +
    " para evitar confusão."
  }

  /** The two-word rule's answer. */
  function NeedsMoreDetailMessage(existing: string): string {
    "Já existe \"" + existing + "\" na lista. Por favor, digite seu " + "nome completo" +
    " com mais detalhes (ex: João Silva Santos)."
  }

  const ConfirmedMessage := "Presença confirmada com sucesso!"

  /** The answer of `confirmFamily`. */
  datatype FamilyOutcome =
    | NamesRequired
    | NoValidName
    | FamilyEventNotFound
    | SimilarRejected(name: string)
    | AllAlreadyConfirmed(names: seq<string>)
    | FamilyConfirmed(count: nat, total: nat, already: seq<string>)

  /** The choice after the loop: similar names first, then "nothing inserted", else success. */
  function FamilyVerdict(t: FamilyTally, total: nat): FamilyOutcome {
    if t.similar != [] then SimilarRejected(t.similar[0])
    else if t.already != [] && |t.inserted| == 0 then AllAlreadyConfirmed(t.already)
    else FamilyConfirmed(|t.inserted|, total, t.already)
  }

  /** `confirmFamily` without its side effects. */
  function FamilyDecision(events: seq<Event>, cs: seq<Confirmation>, code: string,
                          guestNames: Option<seq<Option<string>>>): (o: FamilyOutcome)
    ensures o == NamesRequired <==> guestNames.None? || guestNames.value == []
    ensures o == NoValidName <==> guestNames.Some? && guestNames.value != [] && ValidNames(guestNames.value) == []
    ensures o == FamilyEventNotFound <==>
              guestNames.Some? && ValidNames(guestNames.value) != [] && FindByCode(events, code).None?
  {
    if guestNames.None? || guestNames.value == [] then NamesRequired
    else
      var valid := ValidNames(guestNames.value);
      if valid == [] then NoValidName
      else match FindByCode(events, code)
        case None => FamilyEventNotFound
        case Some(e) => FamilyVerdict(FamilyRun(valid, NamesOf(cs, e.id)), |valid|)
  }

  /** The rows one `confirmFamily` call inserts, whatever its answer. */
  function FamilyInserts(events: seq<Event>, cs: seq<Confirmation>, code: string,
                         guestNames: Option<seq<Option<string>>>, batchId: string, firstId: nat): seq<Confirmation>
  {
    if guestNames.None? || guestNames.value == [] || ValidNames(guestNames.value) == [] then []
    else match FindByCode(events, code)
      case None => []
      case Some(e) =>
        BatchRows(e.id, FamilyRun(ValidNames(guestNames.value), NamesOf(cs, e.id)).inserted, batchId, firstId)
  }

  /** The `message` field of the response of `confirmFamily`. */
  function FamilyMessage(o: FamilyOutcome): string {
    match o
    case NamesRequired => "Lista de nomes é obrigatória"
    case NoValidName => "Pelo menos um nome válido é obrigatório"
    case FamilyEventNotFound => EventNotFoundMessage
    case SimilarRejected(name) =>
      "Já existe alguém com o nome \"" + name + "\" confirmado. Use " + "nome completo" + " para distinguir."
    case AllAlreadyConfirmed(names) =>
      (if |names| > 1 then "Estes nomes já foram confirmados" else "Este nome já foi confirmado") +
      ": " + Join(names, ", ")
    case FamilyConfirmed(count, total, already) =>
      if count == total then AllConfirmedMessage(count)
      else
        NatToString(count) + " de " + NatToString(total) + " presenças confirmadas." +
        (if |already| > 0 then " Já confirmados: " + Join(already, ", ") else "")
  }

  /** The message of a family call whose every name was inserted. */
  function AllConfirmedMessage(count: nat): string {
    if count == 1 then ConfirmedMessage
    else NatToString(count) + " presenças confirmadas com sucesso!"
  }

  /**
    * The three outcomes after the loop. A call succeeds exactly when no name was
    * similar and at least one was inserted; its count is then the number of rows
    * inserted, and it equals the number of valid names exactly when every valid name
    * was inserted. A call that inserted nothing and met no similar name answers
    * with the already-confirmed names.
    */
  lemma FamilyOutcomeFacts(names: seq<string>, rows: seq<string>)
    requires names != []
    ensures var t := FamilyRun(names, rows);
            var o := FamilyVerdict(t, |names|);
            (o.FamilyConfirmed? <==> t.similar == [] && t.inserted != []) &&
            (o.FamilyConfirmed? ==> o.count == |t.inserted| >= 1) &&
            (o.FamilyConfirmed? ==> (o.count == o.total <==> multiset(t.inserted) == multiset(names))) &&
            (o.AllAlreadyConfirmed? <==> t.similar == [] && t.inserted == []) &&
            (o.AllAlreadyConfirmed? ==> o.names == t.already)
  {
    var t := FamilyRun(names, rows);
    FamilyRunAccounting(names, rows);
    if t.similar == [] && t.inserted == [] {
      assert |t.already| == |names| > 0;
    }
    if multiset(t.inserted) == multiset(names) {
      assert |multiset(t.inserted)| == |multiset(names)|;
    }
    if |t.inserted| == |names| {
      assert multiset(t.already) + multiset(t.similar) == multiset{} by {
        assert |t.already| == 0 && |t.similar| == 0;
      }
    }
  }

  /** The "nothing inserted" answer lists every already-confirmed name. */
  lemma AllAlreadyListsEveryName(names: seq<string>)
    ensures forall n :: n in names ==> Contains(FamilyMessage(AllAlreadyConfirmed(names)), n)
  {
    var head := if |names| > 1 then "Estes nomes já foram confirmados" else "Este nome já foi confirmado";
    var m := FamilyMessage(AllAlreadyConfirmed(names));
    assert m == (head + ": ") + Join(names, ", ");
    forall n | n in names ensures Contains(m, n) {
      var k :| 0 <= k < |names| && names[k] == n;
      JoinContains(names, ", ", k);
      var i :| 0 <= i <= |Join(names, ", ")| - |n| && OccursAt(Join(names, ", "), n, i);
      assert OccursAt(m, n, |head + ": "| + i);
    }
  }

  /** The success message has the "all confirmed" form exactly when every valid name was inserted. */
  lemma AllConfirmedFormExactly(count: nat, total: nat, already: seq<string>)
    ensures FamilyMessage(FamilyConfirmed(count, total, already)) == AllConfirmedMessage(count) <==>
            count == total
  {
    if count != total {
      var d := NatToString(count);
      var m := FamilyMessage(FamilyConfirmed(count, total, already));
      var a := AllConfirmedMessage(count);
      if count == 1 {
        assert m[0] == d[0];
        assert a[0] == 'P';
      } else {
        assert m[|d| + 1] == 'd';
        assert a[|d| + 1] == 'p';
      }
    }
  }

  /**
    * Rows inserted before a similar name is met stay in the table: with a stored
    * "first last", the call ["other otherLast", "first"] inserts the first name,
    * then meets "first" as similar and answers with a failure about it.
    */
  lemma RejectedCallKeepsInserts(first: string, last: string, other: string, otherLast: string)
    requires ' ' !in first && ' ' !in last && ' ' !in other && ' ' !in otherLast
    requires first != other
    ensures FamilyRun([other + " " + otherLast, first], [first + " " + last]) ==
            FamilyTally([other + " " + otherLast], [], [first])
    ensures FamilyVerdict(FamilyTally([other + " " + otherLast], [], [first]), 2) == SimilarRejected(first)
  {
    var full := other + " " + otherLast;
    var row := first + " " + last;
    var names := [full, first];
    assert JudgeFamilyMember(full, [row]) == MemberInsert by {
      WordsTwo(other, otherLast);
      WordsTwo(first, last);
      assert Words(full)[0] != Words(row)[0];
    }
    assert names[..0] == [];
    assert [row] + [] == [row];
    FamilyRunStep(names, 0, [row], FamilyTally([], [], []), MemberInsert);
    var t := FamilyTally([full], [], []);
    assert names[..1] == [full];
    assert JudgeFamilyMember(first, [row] + t.inserted) == MemberSimilar by {
      WordsOne(first);
      WordsTwo(first, last);
      assert row[|first|] == ' ' && full[|other|] == ' ';
      assert first !in [row] + [full];
      assert SharesFirstName(first, row);
      FilterCons(SharesFirstNameWith(first), row, [full]);
    }
    FamilyRunStep(names, 1, [row], t, MemberSimilar);
    assert names[..2] == names;
  }

  /** `UPDATE events SET ... WHERE id = ?` on the whole table. */
  function ReplaceEvent(events: seq<Event>, id: nat, req: EventRequest): (r: seq<Event>)
    requires !MissingRequired(req)
    ensures |r| == |events|
    ensures forall k :: 0 <= k < |r| ==>
              r[k] == if events[k].id == id then EventFromRequest(id, req, events[k].linkCode) else events[k]
  {
    seq(|events|, k requires 0 <= k < |events| =>
          if events[k].id == id then EventFromRequest(id, req, events[k].linkCode) else events[k])
  }

  /** An update keeps every row's id and link code, so it keeps them distinct and keeps every id present. */
  lemma ReplaceEventKeepsKeys(events: seq<Event>, id: nat, req: EventRequest)
    requires !MissingRequired(req)
    ensures var r := ReplaceEvent(events, id, req);
            (forall k :: 0 <= k < |r| ==> r[k].id == events[k].id && r[k].linkCode == events[k].linkCode) &&
            (DistinctBy(events, EventIdOf) ==> DistinctBy(r, EventIdOf)) &&
            (DistinctBy(events, LinkCodeOf) ==> DistinctBy(r, LinkCodeOf)) &&
            (forall x :: HasEvent(events, x) ==> HasEvent(r, x)) &&
            (forall e :: e in r ==> e in events || e.id == id)
  {
    var r := ReplaceEvent(events, id, req);
    forall x | HasEvent(events, x) ensures HasEvent(r, x) {
      var e :| e in events && e.id == x;
      var k :| 0 <= k < |events| && events[k] == e;
      assert r[k].id == x;
    }
  }

  // ---------------------------------------------------------------------------
  // The store
  // ---------------------------------------------------------------------------

  /** The answer of `createEvent` and `updateEvent`. */
  datatype EventResult = EventSaved(event: Event) | FieldsRequired | EventNotFound

  /** The answer of `deleteEvent` and `clearConfirmations`. */
  datatype Removal = Removed | RemovalNotFound

  /** The answer of `getAdminEvent`. */
  datatype AdminView =
    | AdminNotFound
    | AdminEvent(event: Event, confirmations: seq<ConfirmationView>, totalConfirmations: nat)

  /** The two tables, with the auto-increment counters of their `id` columns. */
  class Store {
    var events: seq<Event>
    var confirmations: seq<Confirmation>
    var nextEventId: nat
    var nextConfirmationId: nat

    /**
      * What every handler keeps: ids below their counters and distinct, link codes
      * distinct, every confirmation attached to a stored event with a trimmed
      * non-empty name, and no name confirmed twice for one event.
      */
    ghost predicate Valid()
      reads this
    {
      (forall e :: e in events ==> e.id < nextEventId) &&
      DistinctBy(events, EventIdOf) &&
      DistinctBy(events, LinkCodeOf) &&
      (forall c :: c in confirmations ==>
         c.id < nextConfirmationId && HasEvent(events, c.eventId) &&
         Trimmed(c.guestName)) &&
      UniqueRows(confirmations)
    }

    /** Empty tables. */
    constructor()
      ensures Valid()
      ensures events == [] && confirmations == []
    {
      events := [];
      confirmations := [];
      nextEventId := 1;
      nextConfirmationId := 1;
    }

    /** `INSERT INTO confirmations (event_id, guest_name, family_batch_id) VALUES (?, ?, ?)`. */
    method Insert(eventId: nat, name: string, batchId: Option<string>)
      requires Valid()
      requires HasEvent(events, eventId)
      requires Trimmed(name)
      requires name !in NamesOf(confirmations, eventId)
      modifies this
      ensures Valid()
      ensures events == old(events) && nextEventId == old(nextEventId)
      ensures confirmations == old(confirmations) + [Confirmation(old(nextConfirmationId), eventId, name, batchId)]
      ensures nextConfirmationId == old(nextConfirmationId) + 1
    {
      var c := Confirmation(nextConfirmationId, eventId, name, batchId);
      NamesOfMember(confirmations, eventId, name);
      forall y | y in confirmations ensures ConfirmationIdOf(y) != ConfirmationIdOf(c) && GuestKeyOf(y) != GuestKeyOf(c) {
      }
      UniqueRowsByKeys(confirmations);
      DistinctSnoc(confirmations, c, ConfirmationIdOf);
      DistinctSnoc(confirmations, c, GuestKeyOf);
      UniqueRowsByKeys(confirmations + [c]);
      confirmations := confirmations + [c];
      nextConfirmationId := nextConfirmationId + 1;
    }

    /**
      * `createEvent`: the required fields are checked first; then one row is added
      * with the next id, the given (fresh) link code and NULL for empty optional fields.
      */
    method CreateEvent(req: EventRequest, linkCode: string) returns (r: EventResult)
      requires Valid()
      requires forall e :: e in events ==> e.linkCode != linkCode
      modifies this
      ensures Valid()
      ensures MissingRequired(req) ==> r == FieldsRequired && unchanged(this)
      ensures !MissingRequired(req) ==>
                r == EventSaved(EventFromRequest(old(nextEventId), req, linkCode)) &&
                events == old(events) + [r.event] &&
                nextEventId == old(nextEventId) + 1 &&
                confirmations == old(confirmations) && nextConfirmationId == old(nextConfirmationId)
    {
      if MissingRequired(req) {
        return FieldsRequired;
      }
      var e := EventFromRequest(nextEventId, req, linkCode);
      forall y | y in events ensures EventIdOf(y) != EventIdOf(e) && LinkCodeOf(y) != LinkCodeOf(e) {
      }
      DistinctSnoc(events, e, EventIdOf);
      DistinctSnoc(events, e, LinkCodeOf);
      events := events + [e];
      nextEventId := nextEventId + 1;
      r := EventSaved(e);
    }

    /**
      * `updateEvent`: the required fields are checked before the event is looked up;
      * then the row with that id gets the request's fields, keeping its id and link code.
      */
    method UpdateEvent(id: nat, req: EventRequest) returns (r: EventResult)
      requires Valid()
      modifies this
      ensures Valid()
      ensures MissingRequired(req) ==> r == FieldsRequired && unchanged(this)
      ensures !MissingRequired(req) && !HasEvent(old(events), id) ==> r == EventNotFound && unchanged(this)
      ensures !MissingRequired(req) && HasEvent(old(events), id) ==>
                r.EventSaved? && r.event.id == id && r.event in events &&
                events == ReplaceEvent(old(events), id, req) &&
                confirmations == old(confirmations) &&
                nextEventId == old(nextEventId) && nextConfirmationId == old(nextConfirmationId)
    {
      if MissingRequired(req) {
        return FieldsRequired;
      }
      if !HasEvent(events, id) {
        return EventNotFound;
      }
      var target :| target in events && target.id == id;
      var updated := ReplaceEvent(events, id, req);
      ReplaceEventKeepsKeys(events, id, req);
      var k :| 0 <= k < |events| && events[k] == target;
      assert updated[k] == EventFromRequest(id, req, target.linkCode);
      events := updated;
      r := EventSaved(updated[k]);
    }

    /** `deleteEvent`: the event's confirmations are deleted, then the event itself. */
    method DeleteEvent(id: nat) returns (r: Removal)
      requires Valid()
      modifies this
      ensures Valid()
      ensures !HasEvent(old(events), id) ==> r == RemovalNotFound && unchanged(this)
      ensures HasEvent(old(events), id) ==>
                r == Removed &&
                events == Filter(IdIsNot(id), old(events)) &&
                confirmations == Filter(NotForEvent(id), old(confirmations)) &&
                nextEventId == old(nextEventId) && nextConfirmationId == old(nextConfirmationId)
    {
      if !HasEvent(events, id) {
        return RemovalNotFound;
      }
      var kept := Filter(NotForEvent(id), confirmations);
      var remaining := Filter(IdIsNot(id), events);
      UniqueRowsByKeys(confirmations);
      FilterKeepsDistinct(NotForEvent(id), ConfirmationIdOf, confirmations);
      FilterKeepsDistinct(NotForEvent(id), GuestKeyOf, confirmations);
      UniqueRowsByKeys(Filter(NotForEvent(id), confirmations));
      FilterKeepsDistinct(IdIsNot(id), EventIdOf, events);
      FilterKeepsDistinct(IdIsNot(id), LinkCodeOf, events);
      forall c | c in kept ensures HasEvent(remaining, c.eventId) {
        var e :| e in events && e.id == c.eventId;
        assert IdIsNot(id)(e);
      }
      confirmations := kept;
      events := remaining;
      r := Removed;
    }

    /** `clearConfirmations`: every confirmation of the event is deleted and the event stays. */
    method ClearConfirmations(id: nat) returns (r: Removal)
      requires Valid()
      modifies this
      ensures Valid()
      ensures !HasEvent(old(events), id) ==> r == RemovalNotFound && unchanged(this)
      ensures HasEvent(old(events), id) ==>
                r == Removed && events == old(events) &&
                confirmations == Filter(NotForEvent(id), old(confirmations)) &&
                nextEventId == old(nextEventId) && nextConfirmationId == old(nextConfirmationId)
    {
      if !HasEvent(events, id) {
        return RemovalNotFound;
      }
      UniqueRowsByKeys(confirmations);
      FilterKeepsDistinct(NotForEvent(id), ConfirmationIdOf, confirmations);
      FilterKeepsDistinct(NotForEvent(id), GuestKeyOf, confirmations);
      UniqueRowsByKeys(Filter(NotForEvent(id), confirmations));
      confirmations := Filter(NotForEvent(id), confirmations);
      r := Removed;
    }

    /** `getAdminEvent`: the event with that link code, its confirmations and their number. */
    method GetAdminEvent(code: string) returns (r: AdminView)
      ensures FindByCode(events, code).None? ==> r == AdminNotFound
      ensures FindByCode(events, code).Some? ==>
                r.AdminEvent? && r.event == FindByCode(events, code).value &&
                r.confirmations == Map(ViewOf, Filter(ForEvent(r.event.id), confirmations)) &&
                r.totalConfirmations == |r.confirmations|
    {
      var found := FindByCode(events, code);
      if found.None? {
        return AdminNotFound;
      }
      var rows := Map(ViewOf, Filter(ForEvent(found.value.id), confirmations));
      r := AdminEvent(found.value, rows, |rows|);
    }

    /**
      * `confirmGuest`: the blank-name check, the event lookup and the matcher decide
      * the answer; only an accepted name adds a row, holding the trimmed name and no
      * batch id.
      */
    method ConfirmGuest(code: string, guestName: Option<string>) returns (o: GuestOutcome)
      requires Valid()
      modifies this
      ensures Valid()
      ensures o == GuestDecision(old(events), old(confirmations), code, guestName)
      ensures events == old(events) && nextEventId == old(nextEventId)
      ensures o != Judged(Accept) ==>
                confirmations == old(confirmations) && nextConfirmationId == old(nextConfirmationId)
      ensures o == Judged(Accept) ==>
                confirmations == old(confirmations) +
                  [Confirmation(old(nextConfirmationId), FindByCode(old(events), code).value.id,
                                Trim(guestName.value), None)] &&
                nextConfirmationId == old(nextConfirmationId) + 1
    {
      if Blank(guestName) {
        return GuestNameRequired;
      }
      var found := FindByCode(events, code);
      if found.None? {
        return GuestEventNotFound;
      }
      var eventId := found.value.id;
      var name := Trim(guestName.value);
      var verdict := JudgeGuest(name, NamesOf(confirmations, eventId));
      if verdict == Accept {
        Insert(eventId, name, None);
      }
      o := Judged(verdict);
    }

    /**
      * One pass of the family loop: the exact-match query, the first-name query and,
      * when neither holds the name back, the insert with the batch id.
      */
    method ConfirmMember(eventId: nat, name: string, batchId: string) returns (v: MemberVerdict)
      requires Valid()
      requires HasEvent(events, eventId)
      requires Trimmed(name)
      modifies this
      ensures Valid()
      ensures v == JudgeFamilyMember(name, NamesOf(old(confirmations), eventId))
      ensures events == old(events) && nextEventId == old(nextEventId)
      ensures v != MemberInsert ==>
                confirmations == old(confirmations) && nextConfirmationId == old(nextConfirmationId)
      ensures v == MemberInsert ==>
                confirmations == old(confirmations) +
                  [Confirmation(old(nextConfirmationId), eventId, name, Some(batchId))] &&
                nextConfirmationId == old(nextConfirmationId) + 1
    {
      var rows := NamesOf(confirmations, eventId);
      if |ExactMatches(rows, name)| > 0 {
        assert ExactMatches(rows, name)[0] in ExactMatches(rows, name);
        v := MemberAlready;
      } else if |Filter(SharesFirstNameWith(name), rows)| > 0 && WordCount(name) == 1 {
        assert Filter(SharesFirstNameWith(name), rows)[0] in Filter(SharesFirstNameWith(name), rows);
        v := MemberSimilar;
      } else {
        Insert(eventId, name, Some(batchId));
        v := MemberInsert;
      }
    }

    /** One iteration of the family loop, stated against the rows the call has inserted before it. */
    method FamilyStep(eventId: nat, name: string, batchId: string,
                      ghost cs0: seq<Confirmation>, ghost inserted: seq<string>, ghost firstId: nat)
      returns (v: MemberVerdict)
      requires Valid()
      requires HasEvent(events, eventId)
      requires Trimmed(name)
      requires confirmations == cs0 + BatchRows(eventId, inserted, batchId, firstId)
      requires nextConfirmationId == firstId + |inserted|
      modifies this
      ensures Valid()
      ensures events == old(events) && nextEventId == old(nextEventId)
      ensures v == JudgeFamilyMember(name, NamesOf(cs0, eventId) + inserted)
      ensures var now := if v == MemberInsert then inserted + [name] else inserted;
              confirmations == cs0 + BatchRows(eventId, now, batchId, firstId) &&
              nextConfirmationId == firstId + |now|
    {
      v := ConfirmMember(eventId, name, batchId);
      BatchStep(eventId, name, batchId, cs0, inserted, firstId, v, old(confirmations), confirmations);
    }

    /**
      * `confirmFamily`: the list checks and the event lookup first; then each valid
      * name in turn is matched against the event's rows as they stand, including
      * rows this call inserted, and inserted with the shared batch id unless it is
      * already confirmed or a lone taken first name. The inserts stay whatever the
      * answer.
      */
    method ConfirmFamily(code: string, guestNames: Option<seq<Option<string>>>, batchId: string)
      returns (o: FamilyOutcome)
      requires Valid()
      modifies this
      ensures Valid()
      ensures o == FamilyDecision(old(events), old(confirmations), code, guestNames)
      ensures events == old(events) && nextEventId == old(nextEventId)
      ensures var rows := FamilyInserts(old(events), old(confirmations), code, guestNames, batchId,
                                        old(nextConfirmationId));
              confirmations == old(confirmations) + rows &&
              nextConfirmationId == old(nextConfirmationId) + |rows|
    {
      if guestNames.None? || guestNames.value == [] {
        return NamesRequired;
      }
      var valid := ValidNames(guestNames.value);
      if valid == [] {
        return NoValidName;
      }
      var found := FindByCode(events, code);
      if found.None? {
        return FamilyEventNotFound;
      }
      var eventId := found.value.id;
      assert HasEvent(events, eventId);
      var confirmedCount, alreadyConfirmed, similarNames := ConfirmNames(eventId, valid, batchId);
      if |similarNames| > 0 {
        o := SimilarRejected(similarNames[0]);
      } else if |alreadyConfirmed| > 0 && confirmedCount == 0 {
        o := AllAlreadyConfirmed(alreadyConfirmed);
      } else {
        o := FamilyConfirmed(confirmedCount, |valid|, alreadyConfirmed);
      }
    }

    /**
      * The loop of `confirmFamily` over the valid names: each name is judged against
      * the event's rows as they stand, so rows inserted earlier in the call count.
      */
    method ConfirmNames(eventId: nat, valid: seq<string>, batchId: string)
      returns (confirmedCount: nat, alreadyConfirmed: seq<string>, similarNames: seq<string>)
      requires Valid()
      requires HasEvent(events, eventId)
      requires forall k :: 0 <= k < |valid| ==> Trimmed(valid[k])
      modifies this
      ensures Valid()
      ensures var t := FamilyRun(valid, NamesOf(old(confirmations), eventId));
              confirmedCount == |t.inserted| && alreadyConfirmed == t.already && similarNames == t.similar &&
              confirmations == old(confirmations) + BatchRows(eventId, t.inserted, batchId, old(nextConfirmationId)) &&
              nextConfirmationId == old(nextConfirmationId) + |t.inserted|
      ensures events == old(events) && nextEventId == old(nextEventId)
    {
      ghost var rows0 := NamesOf(confirmations, eventId);
      ghost var cs0 := confirmations;
      ghost var firstId := nextConfirmationId;
      ghost var inserted: seq<string> := [];
      confirmedCount := 0;
      alreadyConfirmed := [];
      similarNames := [];
      var i := 0;
      while i < |valid|
        invariant 0 <= i <= |valid|
        invariant Valid() && events == old(events) && nextEventId == old(nextEventId)
        invariant FamilyTally(inserted, alreadyConfirmed, similarNames) == FamilyRun(valid[..i], rows0)
        invariant confirmedCount == |inserted|
        invariant confirmations == cs0 + BatchRows(eventId, inserted, batchId, firstId)
        invariant nextConfirmationId == firstId + |inserted|
      {
        var guestName := valid[i];
        ghost var t := FamilyTally(inserted, alreadyConfirmed, similarNames);
        var v := FamilyStep(eventId, guestName, batchId, cs0, inserted, firstId);
        FamilyRunStep(valid, i, rows0, t, v);
        match v {
          case MemberAlready =>
            alreadyConfirmed := alreadyConfirmed + [guestName];
          case MemberSimilar =>
            similarNames := similarNames + [guestName];
          case MemberInsert =>
            inserted := inserted + [guestName];
            confirmedCount := confirmedCount + 1;
        }
        assert FamilyTally(inserted, alreadyConfirmed, similarNames) == Record(t, guestName, v);
        assert FamilyTally(inserted, alreadyConfirmed, similarNames) == FamilyRun(valid[..i + 1], rows0);
        i := i + 1;
        assert FamilyTally(inserted, alreadyConfirmed, similarNames) == FamilyRun(valid[..i], rows0);
      }
      assert valid[..|valid|] == valid;
    }
  }

  // ---------------------------------------------------------------------------
  // Properties of the tables' transitions
  // ---------------------------------------------------------------------------

  /** Every row a family call inserts carries the call's batch id, belongs to the event and holds a valid name. */
  lemma FamilyInsertsShape(events: seq<Event>, cs: seq<Confirmation>, code: string,
                           guestNames: Option<seq<Option<string>>>, batchId: string, firstId: nat)
    ensures var rows := FamilyInserts(events, cs, code, guestNames, batchId, firstId);
            forall c :: c in rows ==>
              c.familyBatchId == Some(batchId) &&
              FindByCode(events, code).Some? && c.eventId == FindByCode(events, code).value.id &&
              Trimmed(c.guestName) &&
              c.guestName !in NamesOf(cs, c.eventId)
  {
    var rows := FamilyInserts(events, cs, code, guestNames, batchId, firstId);
    if rows != [] {
      var valid := ValidNames(guestNames.value);
      var e := FindByCode(events, code).value;
      var t := FamilyRun(valid, NamesOf(cs, e.id));
      FamilyRunInsertsFresh(valid, NamesOf(cs, e.id));
      BatchRowsAt(e.id, t.inserted, batchId, firstId);
      forall c | c in rows
        ensures c.familyBatchId == Some(batchId) && c.eventId == e.id && c.guestName in t.inserted
      {
        var k :| 0 <= k < |rows| && rows[k] == c;
        assert c.guestName == t.inserted[k];
      }
      forall x | x in valid ensures Trimmed(x) {
        var k :| 0 <= k < |valid| && valid[k] == x;
      }
    }
  }

  /** After `deleteEvent` no event has the id, no confirmation refers to it, and the link code finds nothing. */
  lemma DeleteLeavesNoTrace(events: seq<Event>, cs: seq<Confirmation>, e: Event)
    requires e in events && DistinctBy(events, LinkCodeOf)
    ensures var es := Filter(IdIsNot(e.id), events);
            !HasEvent(es, e.id) && FindByCode(es, e.linkCode).None? &&
            forall n :: n !in NamesOf(Filter(NotForEvent(e.id), cs), e.id)
  {
    var es := Filter(IdIsNot(e.id), events);
    forall x | x in es ensures x.linkCode != e.linkCode {
      var i :| 0 <= i < |events| && events[i] == x;
      var j :| 0 <= j < |events| && events[j] == e;
      assert i != j;
      assert i < j || j < i;
    }
    forall n ensures n !in NamesOf(Filter(NotForEvent(e.id), cs), e.id) {
      NamesOfMember(Filter(NotForEvent(e.id), cs), e.id, n);
    }
  }

  /** `clearConfirmations` leaves every other event's confirmations exactly as they were, in order. */
  lemma ClearKeepsOtherEvents(cs: seq<Confirmation>, id: nat, other: nat)
    requires other != id
    ensures Filter(ForEvent(other), Filter(NotForEvent(id), cs)) == Filter(ForEvent(other), cs)
  {
    FilterNarrow(ForEvent(other), NotForEvent(id), cs);
  }

  /** Clearing an event's confirmations a second time changes nothing. */
  lemma ClearTwice(cs: seq<Confirmation>, id: nat)
    ensures Filter(NotForEvent(id), Filter(NotForEvent(id), cs)) == Filter(NotForEvent(id), cs)
    ensures Filter(ForEvent(id), Filter(NotForEvent(id), cs)) == []
  {
    FilterIdempotent(NotForEvent(id), cs);
    FilterNone(ForEvent(id), Filter(NotForEvent(id), cs));
  }
}
