/**
  * The guest list of client/pages/Admin.tsx: the confirmations an event's admin
  * page receives are split into family groups (one per truthy `family_batch_id`,
  * in order of first appearance) and individual guests; groups get a colour and a
  * number, individual guests are numbered after every family member, and the list
  * can be exported as CSV text.
  */
module AdminPage {

  import opened Options
  import opened Seqs
  import opened Text
  import opened Events

  /** A confirmation as the page holds it (`confirmed_at` is not carried). */
  datatype Row = Row(id: nat, guestName: string, familyBatchId: Option<string>)

  /** `if (confirmation.family_batch_id)`: a batch id that is present and not empty. */
  predicate InFamily(r: Row) {
    r.familyBatchId.Some? && r.familyBatchId.value != ""
  }

  /** The rows the page files under batch `b`. */
  function InBatch(b: string): Row -> bool {
    (r: Row) => InFamily(r) && r.familyBatchId.value == b
  }

  /** The rows the page lists one by one. */
  function Alone(r: Row): bool {
    !InFamily(r)
  }

  // ---------------------------------------------------------------------------
  // What the grouping is meant to produce
  // ---------------------------------------------------------------------------

  /** The keys of the `familyGroups` map: truthy batch ids in order of first appearance. */
  function BatchIds(rows: seq<Row>): (ids: seq<string>)
    ensures forall b :: b in ids ==> b != ""
    decreases |rows|
  {
    if rows == [] then []
    else
      var init := BatchIds(rows[..|rows| - 1]);
      var r := rows[|rows| - 1];
      if InFamily(r) && r.familyBatchId.value !in init then init + [r.familyBatchId.value]
      else init
  }

  /** The members of family `b`, in list order. */
  function Members(rows: seq<Row>, b: string): seq<Row> {
    Filter(InBatch(b), rows)
  }

  /** The guests listed one by one, in list order. */
  function Individuals(rows: seq<Row>): seq<Row> {
    Filter(Alone, rows)
  }

  /** What a correct grouping of `rows` is: the map's keys in insertion order, its entries and the rest. */
  ghost predicate Grouping(rows: seq<Row>, keys: seq<string>, groups: map<string, seq<Row>>, individuals: seq<Row>) {
    && keys == BatchIds(rows)
    && (forall b :: b in groups <==> b in keys)
    && (forall b :: b in groups ==> groups[b] == Members(rows, b))
    && individuals == Individuals(rows)
  }

  /**
    * The `forEach` over the confirmations: a row with a truthy batch id is pushed
    * onto its group, creating the group (and its place in the map's key order) the
    * first time the id is seen; any other row is pushed onto the individual list.
    */
  method GroupConfirmations(rows: seq<Row>) returns (keys: seq<string>, groups: map<string, seq<Row>>, individuals: seq<Row>)
    ensures Grouping(rows, keys, groups, individuals)
  {
    keys, groups, individuals := [], map[], [];
    var i := 0;
    while i < |rows|
      invariant 0 <= i <= |rows|
      invariant Grouping(rows[..i], keys, groups, individuals)
    {
      var c := rows[i];
      assert rows[..i + 1] == rows[..i] + [c];
      if c.familyBatchId.Some? && c.familyBatchId.value != "" {
        var b := c.familyBatchId.value;
        GroupingAddsMember(rows[..i], c, keys, groups, individuals);
        var group := [];
        if b in groups {
          group := groups[b];
        } else {
          keys := keys + [b];
        }
        groups := groups[b := group + [c]];
      } else {
        GroupingAddsIndividual(rows[..i], c, keys, groups, individuals);
        individuals := individuals + [c];
      }
      i := i + 1;
    }
    assert rows[..i] == rows;
  }

  /** A row without a truthy batch id joins the individual list and nothing else. */
  lemma GroupingAddsIndividual(rows: seq<Row>, c: Row, keys: seq<string>, groups: map<string, seq<Row>>,
                               individuals: seq<Row>)
    requires Grouping(rows, keys, groups, individuals) && !InFamily(c)
    ensures Grouping(rows + [c], keys, groups, individuals + [c])
  {
    MembersSnoc(rows, c);
    FilterSnoc(Alone, rows, c);
    assert (rows + [c])[..|rows|] == rows;
  }

  /** A row with a truthy batch id joins its group, which is created at the end of the key order when new. */
  lemma GroupingAddsMember(rows: seq<Row>, c: Row, keys: seq<string>, groups: map<string, seq<Row>>,
                           individuals: seq<Row>)
    requires Grouping(rows, keys, groups, individuals) && InFamily(c)
    ensures var b := c.familyBatchId.value;
            Grouping(rows + [c], if b in groups then keys else keys + [b],
                     groups[b := (if b in groups then groups[b] else []) + [c]], individuals)
  {
    var b := c.familyBatchId.value;
    var rows', keys' := rows + [c], if b in groups then keys else keys + [b];
    var groups' := groups[b := (if b in groups then groups[b] else []) + [c]];
    assert rows'[..|rows|] == rows;
    assert keys' == BatchIds(rows');
    FilterSnoc(Alone, rows, c);
    forall x | x in groups' ensures groups'[x] == Members(rows', x) {
      FilterSnoc(InBatch(x), rows, c);
      if x == b && b !in groups {
        BatchIdsMember(rows, b);
      }
    }
  }

  /** One more row joins its own family and no other. */
  lemma MembersSnoc(rows: seq<Row>, c: Row)
    ensures forall b :: Members(rows + [c], b) == Members(rows, b) + (if InBatch(b)(c) then [c] else [])
  {
    forall b {
      FilterSnoc(InBatch(b), rows, c);
    }
  }

  /** An id is a key exactly when the family it names has a member. */
  lemma {:induction false} BatchIdsMember(rows: seq<Row>, b: string)
    ensures b in BatchIds(rows) <==> Members(rows, b) != []
    decreases |rows|
  {
    if rows != [] {
      var init, r := rows[..|rows| - 1], rows[|rows| - 1];
      BatchIdsMember(init, b);
      assert rows == init + [r];
      FilterSnoc(InBatch(b), init, r);
    }
  }

  /** No batch id is a key twice. */
  lemma {:induction false} BatchIdsDistinct(rows: seq<Row>)
    ensures DistinctBy(BatchIds(rows), Id)
    decreases |rows|
  {
    if rows != [] {
      var init, r := rows[..|rows| - 1], rows[|rows| - 1];
      BatchIdsDistinct(init);
      if InFamily(r) && r.familyBatchId.value !in BatchIds(init) {
        DistinctSnoc(BatchIds(init), r.familyBatchId.value, Id);
      }
    }
  }

  /** Every group shown is non-empty and all of its members carry its batch id. */
  lemma GroupsAreFamilies(rows: seq<Row>, b: string)
    requires b in BatchIds(rows)
    ensures Members(rows, b) != []
    ensures forall r :: r in Members(rows, b) ==> r in rows && r.familyBatchId == Some(b)
  {
    BatchIdsMember(rows, b);
  }

  // ---------------------------------------------------------------------------
  // Counting: every confirmation is shown exactly once
  // ---------------------------------------------------------------------------

  /** The number of members of the families `keys`. */
  function MemberCount(rows: seq<Row>, keys: seq<string>): nat
    decreases |keys|
  {
    if keys == [] then 0
    else MemberCount(rows, keys[..|keys| - 1]) + |Members(rows, keys[|keys| - 1])|
  }

  /** One more row adds one to the member count when its family is one of `keys`, and nothing otherwise. */
  lemma {:induction false} MemberCountSnoc(rows: seq<Row>, c: Row, keys: seq<string>)
    requires DistinctBy(keys, Id)
    ensures MemberCount(rows + [c], keys) ==
            MemberCount(rows, keys) + (if InFamily(c) && c.familyBatchId.value in keys then 1 else 0)
    decreases |keys|
  {
    if keys != [] {
      var init, k := keys[..|keys| - 1], keys[|keys| - 1];
      assert keys == init + [k];
      DistinctSnocIff(init, k, Id);
      MemberCountSnoc(rows, c, init);
      FilterSnoc(InBatch(k), rows, c);
    }
  }

  /** The families hold exactly the rows that are not listed individually. */
  lemma {:induction false} PartitionCount(rows: seq<Row>)
    ensures MemberCount(rows, BatchIds(rows)) + |Individuals(rows)| == |rows|
    decreases |rows|
  {
    if rows != [] {
      var init, c := rows[..|rows| - 1], rows[|rows| - 1];
      assert rows == init + [c];
      PartitionCount(init);
      BatchIdsDistinct(init);
      MemberCountSnoc(init, c, BatchIds(init));
      FilterSnoc(Alone, init, c);
      if InFamily(c) && c.familyBatchId.value !in BatchIds(init) {
        BatchIdsMember(init, c.familyBatchId.value);
        FilterSnoc(InBatch(c.familyBatchId.value), init, c);
      }
    }
  }

  // ---------------------------------------------------------------------------
  // Colours and numbers
  // ---------------------------------------------------------------------------

  /** The badge classes of one hue, light and dark. */
  function ColorClass(hue: string): string {
    "bg-" + hue + "-100 text-" + hue + "-700 dark:bg-" + hue + "-900 dark:text-" + hue + "-200"
  }

  const Hues: seq<string> := ["blue", "green", "purple", "orange", "pink", "indigo"]

  /** The six badge classes, used in turn. */
  const FamilyColors: seq<string> := Map(ColorClass, Hues)

  /** An entry of `familyGroupsArray`. */
  datatype FamilyGroup = FamilyGroup(batchId: string, members: seq<Row>, color: string, familyNumber: nat)

  /** `Array.from(familyGroups.entries()).map(...)`: the groups in key order, coloured and numbered. */
  function FamilyGroupsArray(keys: seq<string>, groups: map<string, seq<Row>>): (fs: seq<FamilyGroup>)
    requires forall b :: b in keys ==> b in groups
    ensures |fs| == |keys|
    ensures forall i :: 0 <= i < |fs| ==>
              fs[i].batchId == keys[i] && fs[i].members == groups[keys[i]] && fs[i].familyNumber == i + 1
  {
    seq(|keys|, i requires 0 <= i < |keys| =>
      FamilyGroup(keys[i], groups[keys[i]], FamilyColors[i % |FamilyColors|], i + 1))
  }

  /** A class names its hue from the fourth character on. */
  lemma ColorClassAt(hue: string)
    requires |hue| >= 2
    ensures ColorClass(hue)[3] == hue[0] && ColorClass(hue)[4] == hue[1]
  {
    assert ColorClass(hue) ==
           ("bg-" + hue) + ("-100 text-" + hue + "-700 dark:bg-" + hue + "-900 dark:text-" + hue + "-200");
  }

  /** The six colours are different classes. */
  lemma ColorsDiffer(i: nat, j: nat)
    requires i < j < |FamilyColors|
    ensures FamilyColors[i] != FamilyColors[j]
  {
    var h := Hues;
    assert h[0][0] == 'b' && h[1][0] == 'g' && h[2][0] == 'p' && h[3][0] == 'o' && h[4][0] == 'p' && h[5][0] == 'i';
    assert h[2][1] == 'u' && h[4][1] == 'i';
    ColorClassAt(h[i]);
    ColorClassAt(h[j]);
  }

  /** Two groups share a colour exactly when their positions are a multiple of six apart. */
  lemma SameColorIff(keys: seq<string>, groups: map<string, seq<Row>>, i: nat, j: nat)
    requires forall b :: b in keys ==> b in groups
    requires i < |keys| && j < |keys|
    ensures FamilyGroupsArray(keys, groups)[i].color == FamilyGroupsArray(keys, groups)[j].color <==>
            i % 6 == j % 6
  {
    assert |FamilyColors| == 6;
    if i % 6 < j % 6 {
      ColorsDiffer(i % 6, j % 6);
    } else if j % 6 < i % 6 {
      ColorsDiffer(j % 6, i % 6);
    }
  }

  /** `familyGroupsArray.reduce((acc, family) => acc + family.members.length, 0)`. */
  function TotalMembers(fs: seq<FamilyGroup>): nat
    decreases |fs|
  {
    if fs == [] then 0 else TotalMembers(fs[..|fs| - 1]) + |fs[|fs| - 1].members|
  }

  /** The reduce over the groups counts the members of their families. */
  lemma {:induction false} TotalMembersCount(rows: seq<Row>, keys: seq<string>, groups: map<string, seq<Row>>)
    requires forall b :: b in keys ==> b in groups && groups[b] == Members(rows, b)
    ensures TotalMembers(FamilyGroupsArray(keys, groups)) == MemberCount(rows, keys)
    decreases |keys|
  {
    if keys != [] {
      var init := keys[..|keys| - 1];
      TotalMembersCount(rows, init, groups);
      var fs := FamilyGroupsArray(keys, groups);
      assert fs[..|fs| - 1] == FamilyGroupsArray(init, groups);
    }
  }

  /** The number shown beside the individual guest at position `k`. */
  function IndividualNumber(fs: seq<FamilyGroup>, k: nat): (n: nat)
    ensures n > TotalMembers(fs)
  {
    TotalMembers(fs) + k + 1
  }

  /**
    * Individual guests are numbered right after the last family member, in
    * increasing order so that no two share a number, and the last of them gets the
    * number of confirmations.
    */
  lemma IndividualNumbersFollowFamilies(rows: seq<Row>, keys: seq<string>, groups: map<string, seq<Row>>,
                                         individuals: seq<Row>)
    requires Grouping(rows, keys, groups, individuals)
    ensures var fs := FamilyGroupsArray(keys, groups);
            TotalMembers(fs) + |individuals| == |rows| &&
            (forall k :: 0 <= k < |individuals| ==> TotalMembers(fs) < IndividualNumber(fs, k) <= |rows|) &&
            (individuals != [] ==> IndividualNumber(fs, |individuals| - 1) == |rows|) &&
            (forall k1, k2 :: 0 <= k1 < k2 < |individuals| ==> IndividualNumber(fs, k1) < IndividualNumber(fs, k2))
  {
    TotalMembersCount(rows, keys, groups);
    PartitionCount(rows);
  }

  // ---------------------------------------------------------------------------
  // CSV export
  // ---------------------------------------------------------------------------

  const CsvHeader: seq<string> := ["Nome", "Data de Confirmação"]

  /** One line: the fields joined by commas, with no quoting. */
  function CsvLine(fields: seq<string>): string {
    Join(fields, ",")
  }

  /** The line of one confirmation: its name and its rendered confirmation time. */
  function RecordLine(when: Row -> string): Row -> string {
    (r: Row) => CsvLine([r.guestName, when(r)])
  }

  /**
    * `exportToCSV`: a header line, then one line per confirmation holding the name
    * and the rendered confirmation time, joined by newlines. How the page renders
    * `confirmed_at` (`toLocaleString` in the São Paulo time zone) is the parameter
    * `when`.
    */
  function CsvString(rows: seq<Row>, when: Row -> string): string {
    Join([CsvLine(CsvHeader)] + Map(RecordLine(when), rows), "\n")
  }

  /** A two-field line is the first field, a comma and the second. */
  lemma CsvLinePair(a: string, b: string)
    ensures CsvLine([a, b]) == a + "," + b
  {
    assert CsvLine([a, b]) == a + "," + Join([b], ",");
  }

  /** When no name and no rendered time holds a newline, the text has one line per row after the header. */
  lemma CsvSplitsIntoLines(rows: seq<Row>, when: Row -> string)
    requires forall r :: r in rows ==> '\n' !in r.guestName && '\n' !in when(r)
    ensures var lines := Split(CsvString(rows, when), '\n');
            |lines| == |rows| + 1 &&
            lines[0] == "Nome" + "," + "Data de Confirmação" &&
            forall k :: 0 <= k < |rows| ==> lines[k + 1] == rows[k].guestName + "," + when(rows[k])
  {
    var lines := [CsvLine(CsvHeader)] + Map(RecordLine(when), rows);
    forall k | 0 <= k < |rows| ensures lines[k + 1] == rows[k].guestName + "," + when(rows[k]) {
      CsvLinePair(rows[k].guestName, when(rows[k]));
    }
    CsvLinePair("Nome", "Data de Confirmação");
    assert '\n' !in "Nome" + "," + "Data de Confirmação";
    forall k | 0 <= k < |lines| ensures '\n' !in lines[k] {
      if k > 0 {
        assert rows[k - 1] in rows;
      }
    }
    SplitJoin(lines, '\n');
  }

  /**
    * A data line splits back into the name and the time when neither holds a comma;
    * a comma in either (the fields are not quoted) adds a column.
    */
  lemma CsvFields(name: string, time: string)
    ensures ',' !in name && ',' !in time ==> Split(name + "," + time, ',') == [name, time]
    ensures ',' in name || ',' in time ==> |Split(name + "," + time, ',')| > 2
  {
    SplitAround(name, time, ',');
    SplitMany(name, ',');
    SplitMany(time, ',');
    if ',' !in name && ',' !in time {
      SplitNone(name, ',');
      SplitNone(time, ',');
    }
  }

  // ---------------------------------------------------------------------------
  // What the page receives from the server
  // ---------------------------------------------------------------------------

  /** As written: the read handlers send `id, guest_name, confirmed_at`, so the page never sees a batch id. */
  function RowOfView(v: ConfirmationView): (r: Row)
    ensures !InFamily(r)
  {
    Row(v.id, v.guestName, None)
  }

  /** Fed what `getAdminEvent` sends, the page shows no family group and lists every guest individually. */
  lemma {:induction false} NoFamiliesFromServer(views: seq<ConfirmationView>)
    ensures BatchIds(Map(RowOfView, views)) == []
    ensures Individuals(Map(RowOfView, views)) == Map(RowOfView, views)
    decreases |views|
  {
    var rows := Map(RowOfView, views);
    FilterAll(Alone, rows);
    if views != [] {
      var init := views[..|views| - 1];
      NoFamiliesFromServer(init);
      assert rows[..|rows| - 1] == Map(RowOfView, init);
    }
  }

  /** Corrected: the page row carries the stored batch id. */
  function RowOf(c: Confirmation): (r: Row)
    ensures r.id == c.id && r.guestName == c.guestName && r.familyBatchId == c.familyBatchId
  {
    Row(c.id, c.guestName, c.familyBatchId)
  }

  /** The rows of an event, in table order, as the page would receive them with their batch ids. */
  function EventRows(cs: seq<Confirmation>, eventId: nat): seq<Row> {
    Map(RowOf, Filter(ForEvent(eventId), cs))
  }

  /** The stored rows the page would file under batch `b`. */
  function StoredInBatch(b: string): Confirmation -> bool {
    (c: Confirmation) => c.familyBatchId.Some? && c.familyBatchId.value != "" && c.familyBatchId.value == b
  }

  /** Among an event's rows, those under a fresh batch id are exactly the rows its family call added. */
  lemma BatchRowsSelected(cs: seq<Confirmation>, eventId: nat, names: seq<string>, batchId: string, firstId: nat)
    requires batchId != ""
    requires forall c :: c in cs ==> c.familyBatchId != Some(batchId)
    ensures var batch := BatchRows(eventId, names, batchId, firstId);
            Filter(StoredInBatch(batchId), Filter(ForEvent(eventId), cs + batch)) == batch
  {
    var batch := BatchRows(eventId, names, batchId, firstId);
    var q := StoredInBatch(batchId);
    BatchRowsAt(eventId, names, batchId, firstId);
    FilterAppend(ForEvent(eventId), cs, batch);
    FilterAll(ForEvent(eventId), batch);
    var mine := Filter(ForEvent(eventId), cs);
    FilterAppend(q, mine, batch);
    FilterNone(q, mine);
    FilterAll(q, batch);
  }

  /**
    * With batch ids sent, the rows added by one family call under a fresh, non-empty
    * batch id form exactly one group, holding the call's names in order.
    */
  lemma FamilyCallFormsOneGroup(cs: seq<Confirmation>, eventId: nat, names: seq<string>,
                                batchId: string, firstId: nat)
    requires names != [] && batchId != ""
    requires forall c :: c in cs ==> c.familyBatchId != Some(batchId)
    ensures var rows := EventRows(cs + BatchRows(eventId, names, batchId, firstId), eventId);
            var m := Members(rows, batchId);
            batchId in BatchIds(rows) &&
            |m| == |names| &&
            forall k :: 0 <= k < |m| ==> m[k].guestName == names[k] && m[k].familyBatchId == Some(batchId)
  {
    var batch := BatchRows(eventId, names, batchId, firstId);
    var rows := EventRows(cs + batch, eventId);
    BatchRowsSelected(cs, eventId, names, batchId, firstId);
    FilterMap(InBatch(batchId), RowOf, StoredInBatch(batchId), Filter(ForEvent(eventId), cs + batch));
    assert Members(rows, batchId) == Map(RowOf, batch);
    BatchRowsAt(eventId, names, batchId, firstId);
    BatchIdsMember(rows, batchId);
  }
}
