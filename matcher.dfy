/**
  * The decisions the two confirmation handlers of server/routes/events.ts take about
  * one candidate name, given the guest names already stored for the event:
  * the single-guest matcher (exact duplicate, one-word and two-word similarity) and
  * the per-name test of the family loop, plus the family loop itself as a
  * specification over the names inserted so far.
  */
module NameMatcher {

  import opened Options
  import opened Seqs
  import opened Text

  /**
    * The exact-match test the store runs as `guest_name = ?`. It is plain,
    * case-sensitive equality here; a case- or pad-insensitive collation would
    * change only this predicate.
    */
  predicate SameName(stored: string, candidate: string) {
    stored == candidate
  }

  function StoredAs(candidate: string): string -> bool {
    stored => SameName(stored, candidate)
  }

  /** The rows `SELECT id FROM confirmations WHERE event_id = ? AND guest_name = ?` returns. */
  function ExactMatches(rows: seq<string>, candidate: string): (r: seq<string>)
    ensures r != [] <==> candidate in rows
  {
    var r := Filter(StoredAs(candidate), rows);
    assert candidate in rows ==> StoredAs(candidate)(candidate);
    assert r != [] ==> r[0] in r;
    r
  }

  /** `name.split(" ")`: spaces only, so two adjacent spaces give an empty word. */
  function Words(name: string): (ws: seq<string>)
    ensures |ws| >= 1
  {
    Split(name, ' ')
  }

  function WordCount(name: string): nat {
    |Words(name)|
  }

  /** `name.split(" ")[0].toLowerCase()`. */
  function FirstNameKey(name: string): string {
    Lower(Words(name)[0])
  }

  /**
    * The filter of the single-guest path: same lower-cased first word, different
    * lower-cased trimmed full name. `candidate` is the already trimmed input.
    */
  predicate IsSimilar(candidate: string, existing: string) {
    FirstNameKey(existing) == FirstNameKey(candidate) &&
    Lower(Trim(existing)) != Lower(candidate)
  }

  function SimilarTo(candidate: string): string -> bool {
    existing => IsSimilar(candidate, existing)
  }

  function SimilarNames(candidate: string, rows: seq<string>): (r: seq<string>)
    ensures forall e :: e in r <==> e in rows && IsSimilar(candidate, e)
  {
    Filter(SimilarTo(candidate), rows)
  }

  /** A JavaScript array slot that holds a non-empty string (`words[k] &&`). */
  predicate Truthy(words: seq<string>, k: nat) {
    k < |words| && words[k] != ""
  }

  /**
    * The closer test of the two-word case: equal first words, both second words
    * present and non-empty, and the same first three characters of the second word,
    * all after lower-casing.
    */
  predicate IsVeryClose(candidate: string, existing: string) {
    var inputWords := Words(Lower(candidate));
    var existingWords := Words(Lower(Trim(existing)));
    inputWords[0] == existingWords[0] &&
    Truthy(inputWords, 1) && Truthy(existingWords, 1) &&
    Prefix(inputWords[1], 3) == Prefix(existingWords[1], 3)
  }

  function VeryCloseTo(candidate: string): string -> bool {
    existing => IsVeryClose(candidate, existing)
  }

  /** The rows `veryCloseMatches` keeps out of all stored rows: similar and very close. */
  function SimilarAndVeryClose(candidate: string): string -> bool {
    existing => IsSimilar(candidate, existing) && IsVeryClose(candidate, existing)
  }

  /** What the single-guest handler decides once the event is known. */
  datatype GuestVerdict =
    | Duplicate
    | NeedsFullName(existing: string)
    | NeedsMoreDetail(existing: string)
    | Accept

  /** `existing` is the first row satisfying `p`. */
  predicate IsFirstWith(rows: seq<string>, existing: string, p: string -> bool) {
    exists k :: 0 <= k < |rows| && rows[k] == existing && p(rows[k]) &&
                forall j :: 0 <= j < k ==> !p(rows[j])
  }

  /**
    * The single-guest matcher: the exact duplicate first, then the one-word and
    * two-word similarity rules; `candidate` is the trimmed input.
    */
  function JudgeGuest(candidate: string, rows: seq<string>): (v: GuestVerdict)
    ensures v == Duplicate <==> candidate in rows
    ensures v.NeedsFullName? <==>
              candidate !in rows && WordCount(candidate) == 1 &&
              exists e :: e in rows && IsSimilar(candidate, e)
    ensures v.NeedsFullName? ==> IsFirstWith(rows, v.existing, SimilarTo(candidate))
    ensures v.NeedsMoreDetail? <==>
              candidate !in rows && WordCount(candidate) == 2 &&
              exists e :: e in rows && IsSimilar(candidate, e) && IsVeryClose(candidate, e)
    ensures v.NeedsMoreDetail? ==>
              v.existing in rows && IsSimilar(candidate, v.existing) && IsVeryClose(candidate, v.existing)
    ensures v.NeedsMoreDetail? ==> IsFirstWith(rows, v.existing, SimilarAndVeryClose(candidate))
    ensures WordCount(candidate) >= 3 ==> v == Duplicate || v == Accept
  {
    if |ExactMatches(rows, candidate)| > 0 then Duplicate
    else
      var similar := SimilarNames(candidate, rows);
      if |similar| > 0 && WordCount(candidate) == 1 then
        FilterFirst(SimilarTo(candidate), rows);
        NeedsFullName(similar[0])
      else if |similar| > 0 && WordCount(candidate) == 2 then
        var veryClose := Filter(VeryCloseTo(candidate), similar);
        if |veryClose| > 0 then
          assert veryClose[0] in veryClose;
          VeryCloseFirst(candidate, rows);
          NeedsMoreDetail(veryClose[0])
        else
          Accept
      else
        Accept
  }

  /** The first very-close match among the similar rows is the first stored row that is both. */
  lemma VeryCloseFirst(candidate: string, rows: seq<string>)
    requires Filter(VeryCloseTo(candidate), SimilarNames(candidate, rows)) != []
    ensures IsFirstWith(rows, Filter(VeryCloseTo(candidate), SimilarNames(candidate, rows))[0],
                        SimilarAndVeryClose(candidate))
  {
    var similar := SimilarNames(candidate, rows);
    FilterSame(VeryCloseTo(candidate), SimilarAndVeryClose(candidate), similar);
    FilterNarrow(SimilarAndVeryClose(candidate), SimilarTo(candidate), rows);
    FilterFirst(SimilarAndVeryClose(candidate), rows);
  }

  /**
    * The very-close test read on the words of the names as typed: for a
    * two-word candidate and a stored name, both lower-cased first words agree, the
    * stored name has a non-empty second word, and the second words agree on their
    * first three characters once lower-cased.
    */
  lemma VeryCloseMeaning(candidate: string, existing: string)
    requires WordCount(candidate) == 2
    ensures IsVeryClose(candidate, existing) <==>
              var cw := Words(candidate);
              var ew := Words(Trim(existing));
              Lower(cw[0]) == Lower(ew[0]) &&
              cw[1] != "" && |ew| >= 2 && ew[1] != "" &&
              Prefix(Lower(cw[1]), 3) == Prefix(Lower(ew[1]), 3)
  {
    LowerSplit(candidate);
    LowerSplit(Trim(existing));
  }

  // ---------------------------------------------------------------------------
  // Family path
  // ---------------------------------------------------------------------------

  /** What one entry of `guest_names` contributes: its trimmed text, unless absent or blank. */
  function KeptName(entry: Option<string>): (r: seq<string>)
    ensures forall k :: 0 <= k < |r| ==> Trimmed(r[k])
  {
    match entry
    case None => []
    case Some(name) =>
      if Trim(name) == "" then [] else [Trim(name)]
  }

  /**
    * `guest_names.map(name => name?.trim()).filter(name => name && name.length > 0)`:
    * absent entries and blank entries are dropped, the rest trimmed, order kept.
    */
  function ValidNames(guestNames: seq<Option<string>>): (r: seq<string>)
    ensures |r| <= |guestNames|
    ensures forall k :: 0 <= k < |r| ==> Trimmed(r[k])
  {
    if guestNames == [] then []
    else KeptName(guestNames[0]) + ValidNames(guestNames[1..])
  }

  /** The entries after the first contribute after the first entry's name. */
  lemma ValidNamesCons(x: Option<string>, s: seq<Option<string>>)
    ensures ValidNames([x] + s) == KeptName(x) + ValidNames(s)
  {
    assert ([x] + s)[1..] == s;
  }

  /** Entry by entry: each present, non-blank entry contributes its trimmed text. */
  lemma {:induction false} ValidNamesAppend(a: seq<Option<string>>, b: seq<Option<string>>)
    ensures ValidNames(a + b) == ValidNames(a) + ValidNames(b)
    decreases |a|
  {
    if a != [] {
      assert (a + b)[1..] == a[1..] + b;
      ValidNamesAppend(a[1..], b);
    } else {
      assert a + b == b;
    }
  }

  /** The first-name condition of `LOWER(SUBSTRING_INDEX(guest_name, ' ', 1)) = ?`. */
  predicate SharesFirstName(name: string, row: string) {
    FirstNameKey(row) == FirstNameKey(name)
  }

  function SharesFirstNameWith(name: string): string -> bool {
    row => SharesFirstName(name, row)
  }

  /** What the family loop does with one name. */
  datatype MemberVerdict = MemberAlready | MemberSimilar | MemberInsert

  /**
    * The per-name test of the family loop, stated over the stored names: the exact
    * duplicate first; then a one-word name whose first name some stored row shares.
    * Unlike the single-guest path there is no "different full name" condition and
    * no two-word rule. The two SELECTs that compute it are in `Events.Store.ConfirmMember`.
    */
  function JudgeFamilyMember(name: string, rows: seq<string>): MemberVerdict {
    if name in rows then MemberAlready
    else if WordCount(name) == 1 && Filter(SharesFirstNameWith(name), rows) != [] then
      MemberSimilar
    else MemberInsert
  }

  /** The three lists the family loop builds: inserted names, `alreadyConfirmed`, `similarNames`. */
  datatype FamilyTally = FamilyTally(inserted: seq<string>, already: seq<string>, similar: seq<string>)

  /**
    * The family loop over `names`, starting from the stored names `rows`: each name is
    * judged against `rows` followed by the names this call has inserted before it.
    */
  function FamilyRun(names: seq<string>, rows: seq<string>): FamilyTally
    decreases |names|
  {
    if names == [] then FamilyTally([], [], [])
    else
      var t := FamilyRun(names[..|names| - 1], rows);
      var name := names[|names| - 1];
      Record(t, name, JudgeFamilyMember(name, rows + t.inserted))
  }

  /** One more name extends the run by one step. */
  lemma FamilyRunStep(names: seq<string>, i: nat, rows: seq<string>, t: FamilyTally, v: MemberVerdict)
    requires i < |names|
    requires t == FamilyRun(names[..i], rows)
    requires v == JudgeFamilyMember(names[i], rows + t.inserted)
    ensures FamilyRun(names[..i + 1], rows) == Record(t, names[i], v)
  {
    assert names[..i + 1][..i] == names[..i];
  }

  /** One iteration's bookkeeping: the name goes to the list its verdict names. */
  function Record(t: FamilyTally, name: string, v: MemberVerdict): FamilyTally {
    match v
    case MemberAlready => t.(already := t.already + [name])
    case MemberSimilar => t.(similar := t.similar + [name])
    case MemberInsert => t.(inserted := t.inserted + [name])
  }

  lemma RecordAddsOne(t: FamilyTally, name: string, v: MemberVerdict)
    ensures var u := Record(t, name, v);
            multiset(u.inserted) + multiset(u.already) + multiset(u.similar) ==
            multiset(t.inserted) + multiset(t.already) + multiset(t.similar) + multiset{name}
  {
  }

  /** Every name of the call lands in one of the three lists, counting repeats. */
  lemma {:induction false} FamilyRunPartition(names: seq<string>, rows: seq<string>)
    ensures var t := FamilyRun(names, rows);
            multiset(t.inserted) + multiset(t.already) + multiset(t.similar) == multiset(names)
    decreases |names|
  {
    if names != [] {
      var init := names[..|names| - 1];
      var name := names[|names| - 1];
      var t := FamilyRun(init, rows);
      FamilyRunPartition(init, rows);
      RecordAddsOne(t, name, JudgeFamilyMember(name, rows + t.inserted));
      assert names == init + [name];
      assert multiset(names) == multiset(init) + multiset{name};
    }
  }

  /**
    * Every name of the call lands in exactly one of the three lists, so
    * `confirmedCount + alreadyConfirmed.length + similarNames.length == validNames.length`.
    */
  lemma FamilyRunAccounting(names: seq<string>, rows: seq<string>)
    ensures var t := FamilyRun(names, rows);
            multiset(t.inserted) + multiset(t.already) + multiset(t.similar) == multiset(names)
    ensures var t := FamilyRun(names, rows);
            |t.inserted| + |t.already| + |t.similar| == |names|
  {
    FamilyRunPartition(names, rows);
    var t := FamilyRun(names, rows);
    assert |multiset(t.inserted) + multiset(t.already) + multiset(t.similar)| ==
           |t.inserted| + |t.already| + |t.similar|;
  }

  /**
    * The names one call inserts were not stored before it and are pairwise
    * different: a repeated name is caught by the exact-match test against the
    * rows inserted earlier in the same call.
    */
  lemma {:induction false} FamilyRunInsertsFresh(names: seq<string>, rows: seq<string>)
    ensures var t := FamilyRun(names, rows);
            (forall x :: x in t.inserted ==> x !in rows && x in names) &&
            (forall i, j :: 0 <= i < j < |t.inserted| ==> t.inserted[i] != t.inserted[j])
    decreases |names|
  {
    if names != [] {
      var init := names[..|names| - 1];
      var name := names[|names| - 1];
      var t := FamilyRun(init, rows);
      FamilyRunInsertsFresh(init, rows);
      if JudgeFamilyMember(name, rows + t.inserted) == MemberInsert {
        var ins := t.inserted + [name];
        assert name !in rows + t.inserted;
        forall i, j | 0 <= i < j < |ins| ensures ins[i] != ins[j] {
          if j == |t.inserted| {
            assert ins[i] == t.inserted[i] && t.inserted[i] in rows + t.inserted;
          }
        }
      }
    }
  }

  // ---------------------------------------------------------------------------
  // Worked examples
  // ---------------------------------------------------------------------------

  lemma WordsOne(p: string)
    requires ' ' !in p
    ensures Words(p) == [p]
  {
    SplitNone(p, ' ');
  }

  lemma WordsTwo(p: string, q: string)
    requires ' ' !in p && ' ' !in q
    ensures Words(p + " " + q) == [p, q]
  {
    SplitTwo(p, q, ' ');
    assert p + " " + q == p + [' '] + q;
  }

  lemma SilPrefixes()
    ensures Prefix(Lower("Silva"), 3) == Prefix(Lower("Silveira"), 3)
  {
    PrefixLower("Silva", 3);
    PrefixLower("Silveira", 3);
    assert Prefix("Silva", 3) == Prefix("Silveira", 3);
  }

  lemma SanPrefix()
    ensures Prefix(Lower("Silva"), 3) != Prefix(Lower("Santos"), 3)
  {
    PrefixLower("Silva", 3);
    PrefixLower("Santos", 3);
    assert Lower(Prefix("Silva", 3))[1] != Lower(Prefix("Santos", 3))[1];
  }

  /** The very-close test on two names of two space-free words each. */
  lemma VeryCloseOfParts(f1: string, s1: string, f2: string, s2: string)
    requires ' ' !in f1 && ' ' !in s1 && ' ' !in f2 && ' ' !in s2
    requires Trim(f2 + " " + s2) == f2 + " " + s2
    ensures IsVeryClose(f1 + " " + s1, f2 + " " + s2) <==>
              Lower(f1) == Lower(f2) && s1 != "" && s2 != "" &&
              Prefix(Lower(s1), 3) == Prefix(Lower(s2), 3)
  {
    WordsTwo(f1, s1);
    WordsTwo(f2, s2);
    VeryCloseMeaning(f1 + " " + s1, f2 + " " + s2);
  }

  /**
    * The two-word rule on a candidate and one stored name with the same first word:
    * the candidate is held back exactly when the second words differ once
    * lower-cased yet agree on their first three lower-cased characters, and both
    * are non-empty; otherwise it is accepted.
    */
  lemma TwoWordRule(f: string, s1: string, s2: string)
    requires ' ' !in f && ' ' !in s1 && ' ' !in s2
    requires Trim(f + " " + s2) == f + " " + s2
    requires s1 != s2
    ensures JudgeGuest(f + " " + s1, [f + " " + s2]) ==
              if s1 != "" && s2 != "" && Lower(s1) != Lower(s2) &&
                 Prefix(Lower(s1), 3) == Prefix(Lower(s2), 3)
              then NeedsMoreDetail(f + " " + s2) else Accept
  {
    var c, e := f + " " + s1, f + " " + s2;
    assert c[|f| + 1..] == s1;
    WordsTwo(f, s1);
    SimilarOfParts(f, s1, s2);
    VeryCloseOfParts(f, s1, f, s2);
    var v := JudgeGuest(c, [e]);
    if v.NeedsMoreDetail? {
      assert v.existing in [e];
    }
  }

  /** Two names with the same first word are similar exactly when their second words differ once lower-cased. */
  lemma SimilarOfParts(f: string, s1: string, s2: string)
    requires ' ' !in f && ' ' !in s1 && ' ' !in s2
    requires Trim(f + " " + s2) == f + " " + s2
    ensures IsSimilar(f + " " + s1, f + " " + s2) <==> Lower(s1) != Lower(s2)
  {
    var c, e := f + " " + s1, f + " " + s2;
    WordsTwo(f, s1);
    WordsTwo(f, s2);
    LowerAppend(f + " ", s1);
    LowerAppend(f + " ", s2);
    var L := Lower(f + " ");
    if Lower(c) == Lower(e) {
      assert Lower(s1) == (L + Lower(s1))[|L|..];
      assert Lower(s2) == (L + Lower(s2))[|L|..];
    }
  }

  /** "João Silva" against "João Silveira": both second words start with "sil". */
  lemma SecondWordPrefixRejects()
    ensures JudgeGuest("João" + " " + "Silva", ["João" + " " + "Silveira"]) ==
            NeedsMoreDetail("João" + " " + "Silveira")
  {
    TrimUnchanged("João" + " " + "Silveira");
    TwoWordRule("João", "Silva", "Silveira");
    SilPrefixes();
    assert |Lower("Silva")| != |Lower("Silveira")|;
  }

  /** "João Silva" against "João Santos": "sil" and "san" differ, so the name is accepted. */
  lemma SecondWordPrefixAccepts()
    ensures JudgeGuest("João" + " " + "Silva", ["João" + " " + "Santos"]) == Accept
  {
    TrimUnchanged("João" + " " + "Santos");
    TwoWordRule("João", "Silva", "Santos");
    SanPrefix();
  }

  /**
    * The two paths disagree: "Ana" next to a stored "ana" passes the single-guest
    * path (same full name once lower-cased) but is held back by the family loop.
    * This holds under the case-sensitive `SameName` above; with a case-insensitive
    * collation the exact-match query would already match and both paths would
    * report the name as already confirmed.
    */
  lemma FamilyPathIsStricterOnOneWord()
    ensures JudgeGuest("Ana", ["ana"]) == Accept
    ensures JudgeFamilyMember("Ana", ["ana"]) == MemberSimilar
  {
    WordsOne("Ana");
    WordsOne("ana");
    TrimUnchanged("ana");
    assert Lower("Ana") == Lower("ana");
    assert !IsSimilar("Ana", "ana");
    assert SharesFirstName("Ana", "ana");
  }

  /** ...and the family loop has no two-word rule: "João Silva" is inserted next to "João Silveira". */
  lemma FamilyPathHasNoTwoWordRule()
    ensures JudgeFamilyMember("João Silva", ["João Silveira"]) == MemberInsert
  {
    WordsTwo("João", "Silva");
    assert "João" + " " + "Silva" == "João Silva";
  }

  /**
    * The same name twice in one family call, when the stored rows would let it in:
    * the first copy is inserted and the second is seen as already confirmed.
    */
  lemma RepeatedNameInOneCall(name: string, rows: seq<string>)
    requires JudgeFamilyMember(name, rows) == MemberInsert
    ensures FamilyRun([name, name], rows) == FamilyTally([name], [name], [])
  {
    var names := [name, name];
    assert names[..0] == [];
    assert rows + [] == rows;
    FamilyRunStep(names, 0, rows, FamilyTally([], [], []), MemberInsert);
    assert name in rows + [name];
    FamilyRunStep(names, 1, rows, FamilyTally([name], [], []), MemberAlready);
    assert names[..2] == names;
  }

  /** A lone first name already taken by a stored full name is put in `similarNames`. */
  lemma LoneFirstNameTakenBy(first: string, last: string)
    requires ' ' !in first && ' ' !in last
    ensures FamilyRun([first], [first + " " + last]) == FamilyTally([], [], [first])
  {
    var names := [first];
    var rows := [first + " " + last];
    assert names[..0] == [];
    assert rows + [] == rows;
    WordsOne(first);
    WordsTwo(first, last);
    assert |first + " " + last| > |first|;
    assert SharesFirstName(first, rows[0]);
    assert JudgeFamilyMember(first, rows) == MemberSimilar;
  }
}
