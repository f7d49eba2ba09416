/**
  * The guest-facing page client/pages/Confirmation.tsx: editing the list of family
  * names, the names a family submission sends, the countdown text, the test that
  * marks a server answer as a "similar name" error, and the indicator under the
  * single-name field.
  */
module ConfirmationPage {

  import opened Options
  import opened Seqs
  import opened Text
  import opened NameMatcher
  import opened Events

  // ---------------------------------------------------------------------------
  // The family-name list
  // ---------------------------------------------------------------------------

  /** The list the form starts with, and returns to after a successful submission. */
  const InitialFamilyNames: seq<string> := ["", ""]

  /** `addFamilyMember`: one more empty entry at the end. */
  function AddFamilyMember(names: seq<string>): (r: seq<string>)
    ensures |r| == |names| + 1 && r[|names|] == ""
    ensures forall k :: 0 <= k < |names| ==> r[k] == names[k]
  {
    names + [""]
  }

  /**
    * `removeFamilyMember`: with more than two entries, the list without the entry
    * at `index` (`filter((_, i) => i !== index)`, which removes nothing when no entry
    * has that index); with two or fewer, the list unchanged.
    */
  function RemoveFamilyMember(names: seq<string>, index: nat): (r: seq<string>)
    ensures |names| > 2 && index < |names| ==>
              |r| == |names| - 1 &&
              (forall k :: 0 <= k < index ==> r[k] == names[k]) &&
              (forall k :: index <= k < |r| ==> r[k] == names[k + 1])
    ensures !(|names| > 2 && index < |names|) ==> r == names
    ensures |names| >= 2 ==> |r| >= 2
  {
    if |names| > 2 && index < |names| then names[..index] + names[index + 1..] else names
  }

  /** Removing an entry takes exactly that entry out of the list's contents. */
  lemma RemoveTakesOneEntry(names: seq<string>, index: nat)
    requires |names| > 2 && index < |names|
    ensures multiset(RemoveFamilyMember(names, index)) + multiset{names[index]} == multiset(names)
  {
    assert names == names[..index] + [names[index]] + names[index + 1..];
  }

  /** Removing the entry just added gives back the list. */
  lemma RemoveUndoesAdd(names: seq<string>)
    requires |names| >= 2
    ensures RemoveFamilyMember(AddFamilyMember(names), |names|) == names
  {
  }

  /** A click on the form's "add" button or on the remove button of entry `index`. */
  datatype ListEdit = AddEntry | RemoveEntry(index: nat)

  /** The list after a run of clicks. */
  function ApplyEdits(names: seq<string>, edits: seq<ListEdit>): seq<string>
    decreases |edits|
  {
    if edits == [] then names
    else
      var next := match edits[0]
        case AddEntry => AddFamilyMember(names)
        case RemoveEntry(index) => RemoveFamilyMember(names, index);
      ApplyEdits(next, edits[1..])
  }

  /** Clicks never take a list of two or more entries below two. */
  lemma {:induction false} EditsKeepTwoEntries(names: seq<string>, edits: seq<ListEdit>)
    requires |names| >= 2
    ensures |ApplyEdits(names, edits)| >= 2
    decreases |edits|
  {
    if edits != [] {
      var next := match edits[0]
        case AddEntry => AddFamilyMember(names)
        case RemoveEntry(index) => RemoveFamilyMember(names, index);
      EditsKeepTwoEntries(next, edits[1..]);
    }
  }

  /** The form, which starts (and restarts after a submission) with two empty entries, always shows at least two. */
  lemma FormNeverBelowTwo(edits: seq<ListEdit>)
    ensures |ApplyEdits(InitialFamilyNames, edits)| >= 2
  {
    EditsKeepTwoEntries(InitialFamilyNames, edits);
  }


  /**
    * `updateFamilyName`: copy the list, then overwrite the entry at `index`. The
    * page only passes the index of an entry it renders.
    */
  method UpdateFamilyName(names: seq<string>, index: nat, value: string) returns (r: seq<string>)
    requires index < |names|
    ensures |r| == |names| && r[index] == value
    ensures forall k :: 0 <= k < |r| && k != index ==> r[k] == names[k]
  {
    var newNames := new string[|names|](k requires 0 <= k < |names| => names[k]);
    newNames[index] := value;
    r := newNames[..];
  }

  // ---------------------------------------------------------------------------
  // Submitting a family
  // ---------------------------------------------------------------------------

  function NonEmpty(s: string): bool {
    |s| > 0
  }

  /** `familyNames.map(name => name.trim()).filter(name => name.length > 0)`. */
  function FamilyValidNames(familyNames: seq<string>): seq<string> {
    Filter(NonEmpty, Map(Trim, familyNames))
  }

  function Present(name: string): Option<string> {
    Some(name)
  }

  /** The client filter is the server's `validNames` on the same entries. */
  lemma {:induction false} ClientFilterIsServerFilter(familyNames: seq<string>)
    ensures FamilyValidNames(familyNames) == ValidNames(Map(Present, familyNames))
    decreases |familyNames|
  {
    if familyNames != [] {
      var x, rest := familyNames[0], familyNames[1..];
      assert familyNames == [x] + rest;
      ClientFilterIsServerFilter(rest);
      MapCons(Trim, x, rest);
      MapCons(Present, x, rest);
      FilterCons(NonEmpty, Trim(x), Map(Trim, rest));
      ValidNamesCons(Some(x), Map(Present, rest));
    }
  }

  /** The server keeps every name the client sends, unchanged and in order. */
  lemma {:induction false} ServerKeepsSentNames(sent: seq<string>)
    requires forall n :: n in sent ==> Trimmed(n)
    ensures ValidNames(Map(Present, sent)) == sent
    decreases |sent|
  {
    if sent != [] {
      var x, rest := sent[0], sent[1..];
      assert sent == [x] + rest;
      ServerKeepsSentNames(rest);
      TrimUnchanged(x);
      MapCons(Present, x, rest);
      ValidNamesCons(Some(x), Map(Present, rest));
    }
  }

  /** The client's filter leaves nothing exactly when every entry is blank once trimmed. */
  lemma BlankFormIff(familyNames: seq<string>)
    ensures FamilyValidNames(familyNames) == [] <==>
            forall k :: 0 <= k < |familyNames| ==> Trim(familyNames[k]) == ""
  {
    var t := Map(Trim, familyNames);
    if FamilyValidNames(familyNames) == [] {
      forall k | 0 <= k < |familyNames| ensures Trim(familyNames[k]) == "" {
        assert t[k] in t;
      }
    } else {
      var v := FamilyValidNames(familyNames)[0];
      assert v in FamilyValidNames(familyNames);
      var k :| 0 <= k < |familyNames| && t[k] == v;
    }
  }

  /** What the family form does on submit: refuse locally, or send the valid names. */
  datatype FamilySubmission = Refused(message: string) | Send(guestNames: seq<string>)

  const AddAtLeastOneMessage := "Adicione pelo menos um nome para confirmar presença."

  /** `handleFamilyConfirmation` up to the request: no request is made when no entry has text. */
  function FamilySubmit(familyNames: seq<string>): (s: FamilySubmission)
    ensures s.Refused? <==> forall k :: 0 <= k < |familyNames| ==> Trim(familyNames[k]) == ""
    ensures s.Refused? ==> s.message == AddAtLeastOneMessage
    ensures s.Send? ==> s.guestNames != [] && s.guestNames == ValidNames(Map(Present, familyNames))
  {
    var validNames := FamilyValidNames(familyNames);
    ClientFilterIsServerFilter(familyNames);
    BlankFormIff(familyNames);
    if |validNames| == 0 then Refused(AddAtLeastOneMessage)
    else Send(validNames)
  }

  /** A submission that is sent is never answered "names required" or "no valid name". */
  lemma SentFamilyPassesServerChecks(events: seq<Event>, cs: seq<Confirmation>, code: string,
                                     familyNames: seq<string>)
    requires FamilySubmit(familyNames).Send?
    ensures var o := FamilyDecision(events, cs, code, Some(Map(Present, FamilySubmit(familyNames).guestNames)));
            o != NamesRequired && o != NoValidName
  {
    var sent := FamilySubmit(familyNames).guestNames;
    ServerKeepsSentNames(sent);
  }

  // ---------------------------------------------------------------------------
  // Countdown text
  // ---------------------------------------------------------------------------

  /** `getDaysRemainingText`; `Math.abs(days)` is `-days` on the negative branch. */
  function DaysRemainingText(days: int): string {
    if days < 0 then
      var n := -days;
      "Momento já aconteceu (" + (NatToString(n) + (" dia" + (if n != 1 then "s" else "") + " atrás)"))
    else if days == 0 then "O momento especial é hoje! 🍓"
    else if days == 1 then "Falta apenas 1 dia!"
    else "Faltam " + NatToString(days) + " dias"
  }

  /** Past events: the word before " atrás)" is plural exactly when the event is not one day past. */
  lemma DaysTextPlural(days: int)
    requires days < 0
    ensures var t := DaysRemainingText(days);
            |t| > 8 && (t[|t| - 8] == 's' <==> days != -1)
  {
    var n := -days;
    var unit := " dia" + (if n != 1 then "s" else "");
    var lead := "Momento já aconteceu (" + NatToString(n);
    var t := DaysRemainingText(days);
    assert t == lead + unit + " atrás)";
    assert t[|t| - 8] == unit[|unit| - 1];
    if n == 1 {
      assert unit == " dia";
    }
  }

  /** A number followed by text that does not start with a digit is read back unambiguously. */
  lemma NumberThenText(m: nat, x: string, n: nat, y: string)
    requires |x| > 0 && !IsDigit(x[0]) && |y| > 0 && !IsDigit(y[0])
    requires NatToString(m) + x == NatToString(n) + y
    ensures m == n
  {
    DigitRunUnique(NatToString(m), x, NatToString(n), y);
    NatToStringInjective(m, n);
  }

  /** The first character tells past, today and future apart; the sixth tells one day from more. */
  lemma DaysTextMarks(days: int)
    ensures var t := DaysRemainingText(days);
            |t| > 5 &&
            t[0] == (if days < 0 then 'M' else if days == 0 then 'O' else 'F') &&
            (days >= 1 ==> (t[5] == 'm' <==> days >= 2))
  {
    var t := DaysRemainingText(days);
    if days < 0 {
      var past := "Momento já aconteceu (";
      assert t == past + (NatToString(-days) + " dia" + (if -days != 1 then "s" else "") + " atrás)");
      assert t[0] == past[0];
    } else if days >= 2 {
      var left := "Faltam ";
      assert t == left + (NatToString(days) + " dias");
      assert t[0] == left[0] && t[5] == left[5];
    }
  }

  /** Equal texts after a common prefix. */
  lemma CancelPrefix(p: string, a: string, b: string)
    requires p + a == p + b
    ensures a == b
  {
    assert a == (p + a)[|p|..];
    assert b == (p + b)[|p|..];
  }

  /** Different day counts never show the same text. */
  lemma DaysTextInjective(d: int, e: int)
    requires d != e
    ensures DaysRemainingText(d) != DaysRemainingText(e)
  {
    var s, t := DaysRemainingText(d), DaysRemainingText(e);
    if s == t {
      DaysTextMarks(d);
      DaysTextMarks(e);
      if d < 0 && e < 0 {
        PastTextsDiffer(-d, -e);
        assert false;
      } else if d >= 2 && e >= 2 {
        var left := "Faltam ";
        assert s == left + (NatToString(d) + " dias");
        assert t == left + (NatToString(e) + " dias");
        CancelPrefix(left, NatToString(d) + " dias", NatToString(e) + " dias");
        NumberThenText(d, " dias", e, " dias");
        assert false;
      } else {
        assert false;
      }
    }
  }

  /** Texts for different past day counts differ. */
  lemma PastTextsDiffer(m: int, n: int)
    requires m > 0 && n > 0 && m != n
    ensures DaysRemainingText(-m) != DaysRemainingText(-n)
  {
    var past := "Momento já aconteceu (";
    var x := " dia" + (if m != 1 then "s" else "") + " atrás)";
    var y := " dia" + (if n != 1 then "s" else "") + " atrás)";
    assert DaysRemainingText(-m) == past + (NatToString(m) + x);
    assert DaysRemainingText(-n) == past + (NatToString(n) + y);
    if past + (NatToString(m) + x) == past + (NatToString(n) + y) {
      CancelPrefix(past, NatToString(m) + x, NatToString(n) + y);
      assert x[0] == ' ' && y[0] == ' ';
      NumberThenText(m, x, n, y);
    }
  }

  // ---------------------------------------------------------------------------
  // The similar-name error
  // ---------------------------------------------------------------------------

  /** The fields of a confirmation response the page reads. */
  datatype Response = Response(success: bool, message: Option<string>)

  /** `!result.success && result.message?.includes("Já existe") && result.message?.includes("nome completo")`. */
  predicate IsSimilarNameError(r: Response) {
    !r.success && r.message.Some? && Contains(r.message.value, "Já existe") &&
    Contains(r.message.value, "nome completo")
  }

  /** The response `confirmGuest` sends for an outcome. */
  function GuestResponse(o: GuestOutcome): Response {
    Response(o == Judged(Accept), Some(GuestMessage(o)))
  }

  /** A message whose first characters are "Já existe" contains it. */
  lemma LeadsWithAlreadyExists(m: string)
    requires |m| >= 9 && m[..9] == "Já existe"
    ensures Contains(m, "Já existe")
  {
    assert OccursAt(m, "Já existe", 0);
  }

  /** The two similarity messages of the single-guest path carry both phrases the detector looks for. */
  lemma SimilarityMessagesMatch(existing: string)
    ensures Contains(NeedsFullNameMessage(existing), "Já existe")
    ensures Contains(NeedsFullNameMessage(existing), "nome completo")
    ensures Contains(NeedsMoreDetailMessage(existing), "Já existe")
    ensures Contains(NeedsMoreDetailMessage(existing), "nome completo")
  {
    var lead := "Já existe \"";
    var head := lead + existing + "\" na lista. Por favor, digite seu ";
    var full, more := " para evitar confusão.", " com mais detalhes (ex: João Silva Santos).";
    ContainsInfix(head, "nome completo", full);
    ContainsInfix(head, "nome completo", more);
    assert lead[..9] == "Já existe";
    assert NeedsFullNameMessage(existing)[..9] == lead[..9];
    assert NeedsMoreDetailMessage(existing)[..9] == lead[..9];
    LeadsWithAlreadyExists(NeedsFullNameMessage(existing));
    LeadsWithAlreadyExists(NeedsMoreDetailMessage(existing));
  }

  /**
    * The page flags a single-guest answer as a similar-name error exactly when the
    * matcher asked for a fuller name (the one-word and the two-word rule); the
    * duplicate, blank-name, unknown-event and success answers are never flagged.
    */
  lemma SimilarErrorIff(o: GuestOutcome)
    ensures IsSimilarNameError(GuestResponse(o)) <==>
              o.Judged? && (o.verdict.NeedsFullName? || o.verdict.NeedsMoreDetail?)
  {
    if o.Judged? && (o.verdict.NeedsFullName? || o.verdict.NeedsMoreDetail?) {
      SimilarityMessagesMatch(o.verdict.existing);
    } else {
      OtherAnswersNotFlagged(o);
    }
  }

  /** The duplicate, blank-name, unknown-event and success answers are never flagged. */
  lemma OtherAnswersNotFlagged(o: GuestOutcome)
    requires !(o.Judged? && (o.verdict.NeedsFullName? || o.verdict.NeedsMoreDetail?))
    ensures !IsSimilarNameError(GuestResponse(o))
  {
    match o {
      case Judged(Duplicate) =>
        var m := "Você já confirmou presença para este evento";
        assert forall i | 0 <= i < |m| :: m[i] != 'J';
        HasNoCapitalJ(m);
      case Judged(Accept) =>
      case GuestNameRequired =>
        var m := "Nome é obrigatório";
        assert forall i | 0 <= i < |m| :: m[i] != 'J';
        HasNoCapitalJ(m);
      case GuestEventNotFound =>
        var m := EventNotFoundMessage;
        assert forall i | 0 <= i < |m| :: m[i] != 'J';
        HasNoCapitalJ(m);
    }
  }

  /** A message without a capital J is not flagged, whatever the success flag. */
  lemma HasNoCapitalJ(m: string)
    requires forall i | 0 <= i < |m| :: m[i] != 'J'
    ensures forall success :: !IsSimilarNameError(Response(success, Some(m)))
  {
    NotContainsHead(m, "Já existe");
  }

  // ---------------------------------------------------------------------------
  // The name indicator
  // ---------------------------------------------------------------------------

  datatype Indicator = FullName | AddSurname

  /** Shown under the name field once it has text: green when the trimmed name splits into two or more words. */
  function NameIndicator(guestName: string): (r: Option<Indicator>)
    ensures r.None? <==> Trim(guestName) == ""
  {
    var name := Trim(guestName);
    if |name| == 0 then None
    else if |Split(name, ' ')| >= 2 then Some(FullName)
    else Some(AddSurname)
  }

  /** The indicator is green exactly when the trimmed name holds a space. */
  lemma FullNameIffSpace(guestName: string)
    requires Trim(guestName) != ""
    ensures NameIndicator(guestName) == Some(FullName) <==> ' ' in Trim(guestName)
  {
    SplitMany(Trim(guestName), ' ');
  }

  /**
    * The server asks for a full name only for a name the indicator showed in
    * yellow: the page sends the trimmed name, which the server trims again.
    */
  lemma FullNameRequestOnlyWhenYellow(guestName: string, rows: seq<string>)
    requires Trim(guestName) != ""
    ensures JudgeGuest(Trim(Trim(guestName)), rows).NeedsFullName? ==>
              NameIndicator(guestName) == Some(AddSurname)
  {
    TrimIdempotent(guestName);
  }
}
