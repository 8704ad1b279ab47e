/**
 * The `ContactManager` class: an in-memory list of contacts, the file it is
 * persisted to, and the add / modify / delete conversations.
 *
 * Each operation is first given as a function from the list before the call
 * (and the user's answers) to a `Step`: what happened and the list after the
 * call. The class's methods run the conversation step by step and promise to
 * land exactly on that `Step`; the lemmas say what the steps guarantee.
 *
 * Contacts are Python objects without `__eq__`, so `list.index` and
 * `list.remove` find the selected object by identity. Objects in the list are
 * never shared, so the selected object is the one at the position the search
 * listed it from: the model carries that position (`MatchIndices`).
 */
module Manager {
  import opened Wrappers
  import opened Chars
  import opened Validators
  import opened Contacts
  import opened Prompts

  /** The contacts file as the loader finds it. */
  datatype StoredFile = Missing | Corrupt | Saved(records: seq<Contact>)

  /** An argument of `add_contact`: passed by the caller, or `None` and asked for. */
  datatype FieldInput = Given(value: string) | Prompted(attempts: seq<string>)

  /** The lines typed at the four "leave blank to keep current" prompts of `modify_contact`. */
  datatype Edits = Edits(first: seq<string>, last: seq<string>, phone: seq<string>, email: seq<string>)

  /**
   * How a conversation ended: the list was changed and saved, the user said
   * no, the search found nothing, or the supplied input ran out while the
   * program was still prompting.
   */
  datatype Outcome = Committed | Declined | NotFound | InputEnded

  /** The outcome of an operation and the list it leaves. */
  datatype Step = Step(outcome: Outcome, contacts: seq<Contact>)

  /** No two contacts agree on all four fields. */
  predicate Distinct(contacts: seq<Contact>) {
    forall i, j | 0 <= i < j < |contacts| :: contacts[i] != contacts[j]
  }

  // ---- add_contact ----

  /** One argument of `add_contact`: a passed value is taken as is, a missing one is asked for. */
  function Obtain(f: FieldInput, valid: string -> bool): Option<string> {
    match f
    case Given(value) => Some(value)
    case Prompted(attempts) => FirstValid(attempts, valid)
  }

  /** Where a field's value came from: the caller, unchecked, or the first line the validator accepted. */
  ghost predicate Supplies(f: FieldInput, valid: string -> bool, value: string) {
    match f
    case Given(v) => value == v
    case Prompted(attempts) =>
      exists i :: FirstAcceptedAt(attempts, valid, i) && value == Strip(attempts[i])
  }

  lemma ObtainSpec(f: FieldInput, valid: string -> bool)
    ensures Obtain(f, valid).None? <==>
              f.Prompted? && forall i | 0 <= i < |f.attempts| :: !valid(Strip(f.attempts[i]))
    ensures Obtain(f, valid).Some? ==> Supplies(f, valid, Obtain(f, valid).value)
  {
    if f.Prompted? {
      FirstValidSpec(f.attempts, valid);
    }
  }

  /** The contact `add_contact` builds from its four arguments, once every field has a value. */
  function Candidate(first: FieldInput, last: FieldInput, phone: FieldInput, email: FieldInput): Option<Contact> {
    var f := Obtain(first, IsValidName);
    var l := Obtain(last, IsValidName);
    var p := Obtain(phone, IsValidPhone);
    var e := Obtain(email, IsValidEmail);
    if f.Some? && l.Some? && p.Some? && e.Some? then
      Some(Contact(f.value, l.value, p.value, e.value))
    else
      None
  }

  /** `add_contact`: append the candidate, unless it duplicates a stored contact and the user does not insist. */
  function Add(contacts: seq<Contact>, first: FieldInput, last: FieldInput, phone: FieldInput, email: FieldInput,
               overrideAnswer: string): (step: Step)
    ensures step.outcome == Committed || step.outcome == Declined || step.outcome == InputEnded
    ensures step.outcome == Committed ==>
              |step.contacts| == |contacts| + 1 && step.contacts[..|contacts|] == contacts
    ensures step.outcome != Committed ==> step.contacts == contacts
  {
    match Candidate(first, last, phone, email)
    case None => Step(InputEnded, contacts)
    case Some(c) =>
      if IsDuplicate(contacts, c) && !Confirms(overrideAnswer) then
        Step(Declined, contacts)
      else
        assert (contacts + [c])[..|contacts|] == contacts;
        Step(Committed, contacts + [c])
  }

  /**
   * The contact `add_contact` appends has, in each field, the value passed
   * by the caller or the first line the field's validator accepted.
   */
  lemma AddedContactIsValidated(contacts: seq<Contact>, first: FieldInput, last: FieldInput, phone: FieldInput,
                                email: FieldInput, overrideAnswer: string)
    requires Add(contacts, first, last, phone, email, overrideAnswer).outcome == Committed
    ensures var c := Add(contacts, first, last, phone, email, overrideAnswer).contacts[|contacts|];
            && Supplies(first, IsValidName, c.firstName)
            && Supplies(last, IsValidName, c.lastName)
            && Supplies(phone, IsValidPhone, c.phoneNumber)
            && Supplies(email, IsValidEmail, c.email)
  {
    ObtainSpec(first, IsValidName);
    ObtainSpec(last, IsValidName);
    ObtainSpec(phone, IsValidPhone);
    ObtainSpec(email, IsValidEmail);
  }

  /** `add_contact` gives up only when a prompted field never receives an acceptable line. */
  lemma AddEndsOnlyWithoutValidLine(contacts: seq<Contact>, first: FieldInput, last: FieldInput, phone: FieldInput,
                                    email: FieldInput, overrideAnswer: string)
    ensures Add(contacts, first, last, phone, email, overrideAnswer).outcome == InputEnded <==>
              || (first.Prompted? && forall i | 0 <= i < |first.attempts| :: !IsValidName(Strip(first.attempts[i])))
              || (last.Prompted? && forall i | 0 <= i < |last.attempts| :: !IsValidName(Strip(last.attempts[i])))
              || (phone.Prompted? && forall i | 0 <= i < |phone.attempts| :: !IsValidPhone(Strip(phone.attempts[i])))
              || (email.Prompted? && forall i | 0 <= i < |email.attempts| :: !IsValidEmail(Strip(email.attempts[i])))
  {
    ObtainSpec(first, IsValidName);
    ObtainSpec(last, IsValidName);
    ObtainSpec(phone, IsValidPhone);
    ObtainSpec(email, IsValidEmail);
  }

  /**
   * When `add_contact` commits: every field got a value, and the candidate is
   * new or the user answers `y` to the duplicate warning; it then appends
   * exactly the candidate. A duplicate without that `y` is declined and the
   * list keeps its size.
   */
  lemma AddCommitsWhen(contacts: seq<Contact>, first: FieldInput, last: FieldInput, phone: FieldInput,
                       email: FieldInput, overrideAnswer: string)
    ensures var step := Add(contacts, first, last, phone, email, overrideAnswer);
            var c := Candidate(first, last, phone, email);
            && (step.outcome == Committed <==>
                  c.Some? && ((forall i | 0 <= i < |contacts| :: contacts[i] != c.value) || Confirms(overrideAnswer)))
            && (step.outcome == Committed ==> step.contacts == contacts + [c.value])
            && (step.outcome == Declined <==>
                  c.Some? && (exists i | 0 <= i < |contacts| :: contacts[i] == c.value) && !Confirms(overrideAnswer))
  {
  }

  /** A duplicate is only stored when the user answers `y`; otherwise the list stays free of duplicates. */
  lemma {:induction false} AddKeepsStoreDistinct(contacts: seq<Contact>, first: FieldInput, last: FieldInput,
                                                 phone: FieldInput, email: FieldInput, overrideAnswer: string)
    requires Distinct(contacts)
    requires !Confirms(overrideAnswer)
    ensures Distinct(Add(contacts, first, last, phone, email, overrideAnswer).contacts)
  {
    var step := Add(contacts, first, last, phone, email, overrideAnswer);
    if step.outcome == Committed {
      var c := Candidate(first, last, phone, email).value;
      assert step.contacts == contacts + [c];
      assert !IsDuplicate(contacts, c);
      forall i, j | 0 <= i < j < |step.contacts| ensures step.contacts[i] != step.contacts[j] {
        if j == |contacts| {
          assert step.contacts[i] == contacts[i];
        }
      }
    }
  }

  /**
   * Arguments passed by the caller bypass the validators: a first name with a
   * digit in it, which the name prompt would refuse, is stored as given.
   */
  lemma GivenNameIsNotValidated(name: string)
    requires name == "J0hn"
    ensures !IsValidName(name)
    ensures Add([], Given(name), Given("Doe"), Given("555"), Given("j@d.io"), "n").contacts
            == [Contact(name, "Doe", "555", "j@d.io")]
  {
    NameValidatorAccepts(name);
    assert !IsNameChar(name[1]);
  }

  // ---- _select_contact_from_results and search ----

  /**
   * The position in the list of the contact the user selects among the
   * matches for `query`: the only match, or the one whose listed number the
   * user types.
   */
  function SelectedIndex(contacts: seq<Contact>, query: string, entries: seq<Option<int>>): (r: Option<nat>)
    ensures r.Some? ==> r.value < |contacts| && Matches(contacts[r.value], query)
  {
    var positions := MatchIndices(contacts, query);
    if positions == [] then
      None
    else
      match Selection(|positions|, entries)
      case None => None
      case Some(k) => Some(positions[k])
  }

  /** With a single match nothing is asked: that contact is selected. */
  lemma SingleMatchIsSelected(contacts: seq<Contact>, query: string, entries: seq<Option<int>>, i: nat)
    requires i < |contacts| && Matches(contacts[i], query)
    requires forall j | 0 <= j < |contacts| && j != i :: !Matches(contacts[j], query)
    ensures SelectedIndex(contacts, query, entries) == Some(i)
  {
    var positions := MatchIndices(contacts, query);
    assert i in positions;
    var k :| 0 <= k < |positions| && positions[k] == i;
    assert forall m | 0 <= m < |positions| :: positions[m] == i;
    assert positions[0] == positions[|positions| - 1];
  }

  /**
   * With several matches the user picks by number: a selection is made exactly
   * when some entry is a number from 1 to the number of results, and the first
   * such number `n` selects the position of the `n`-th match in the list, the
   * contact listed as `n`. The position itself is chosen, not the first
   * contact with equal fields.
   */
  lemma SelectedIsListedNumber(contacts: seq<Contact>, query: string, entries: seq<Option<int>>)
    requires |Search(contacts, query)| > 1
    ensures SelectedIndex(contacts, query, entries).Some? <==> FirstInRange(entries, |Search(contacts, query)|).Some?
    ensures FirstInRange(entries, |Search(contacts, query)|).Some? ==>
              var k := FirstInRange(entries, |Search(contacts, query)|).value;
              && k < |Search(contacts, query)| && k < |MatchIndices(contacts, query)|
              && SelectedIndex(contacts, query, entries) == Some(MatchIndices(contacts, query)[k])
              && contacts[MatchIndices(contacts, query)[k]] == Search(contacts, query)[k]
  {
    var results := Search(contacts, query);
    var positions := MatchIndices(contacts, query);
    SearchAtMatchIndices(contacts, query);
    FirstInRangeSpec(entries, |results|);
    if FirstInRange(entries, |results|).Some? {
      var k := FirstInRange(entries, |results|).value;
      assert SelectedIndex(contacts, query, entries) == Some(positions[k]);
    }
  }

  // ---- modify_contact ----

  /** The four `get_new_value` prompts, each keeping the field of `c` on a blank line. */
  function Replacement(c: Contact, edits: Edits): Option<Contact> {
    var f := NewValue(edits.first, IsValidName, c.firstName);
    var l := NewValue(edits.last, IsValidName, c.lastName);
    var p := NewValue(edits.phone, IsValidPhone, c.phoneNumber);
    var e := NewValue(edits.email, IsValidEmail, c.email);
    if f.Some? && l.Some? && p.Some? && e.Some? then
      Some(Contact(f.value, l.value, p.value, e.value))
    else
      None
  }

  /** A field after `get_new_value`: the first blank or valid line decides, blank keeping `current`. */
  ghost predicate Edited(attempts: seq<string>, valid: string -> bool, current: string, value: string) {
    exists i :: && FirstSettledAt(attempts, valid, i)
                && value == (if Strip(attempts[i]) == "" then current else Strip(attempts[i]))
  }

  lemma ReplacementSpec(c: Contact, edits: Edits)
    requires Replacement(c, edits).Some?
    ensures var r := Replacement(c, edits).value;
            && Edited(edits.first, IsValidName, c.firstName, r.firstName)
            && Edited(edits.last, IsValidName, c.lastName, r.lastName)
            && Edited(edits.phone, IsValidPhone, c.phoneNumber, r.phoneNumber)
            && Edited(edits.email, IsValidEmail, c.email, r.email)
  {
    NewValueSome(edits.first, IsValidName, c.firstName);
    NewValueSome(edits.last, IsValidName, c.lastName);
    NewValueSome(edits.phone, IsValidPhone, c.phoneNumber);
    NewValueSome(edits.email, IsValidEmail, c.email);
  }

  /**
   * `modify_contact`: select a match, confirm, read the new values, and
   * overwrite the selected contact unless the result duplicates a stored
   * contact and the user does not insist. The duplicate test runs over the
   * whole list, the selected contact included.
   */
  function Modify(contacts: seq<Contact>, query: string, entries: seq<Option<int>>, confirmAnswer: string,
                  edits: Edits, overrideAnswer: string): (step: Step)
    ensures step.outcome == NotFound <==> forall i | 0 <= i < |contacts| :: !Matches(contacts[i], query)
    ensures |step.contacts| == |contacts|
    ensures step.outcome != Committed ==> step.contacts == contacts
  {
    if MatchIndices(contacts, query) == [] then
      Step(NotFound, contacts)
    else
      assert Matches(contacts[MatchIndices(contacts, query)[0]], query);
      match SelectedIndex(contacts, query, entries)
      case None => Step(InputEnded, contacts)
      case Some(i) =>
        if !Confirms(confirmAnswer) then
          Step(Declined, contacts)
        else
          match Replacement(contacts[i], edits)
          case None => Step(InputEnded, contacts)
          case Some(rep) =>
            if IsDuplicate(contacts, rep) && !Confirms(overrideAnswer) then
              Step(Declined, contacts)
            else
              Step(Committed, contacts[i := rep])
  }

  /**
   * A committed modification rewrites only the selected contact, and each of
   * its fields is the old value (blank line) or a line its validator accepted.
   */
  lemma ModifyTouchesOnlySelected(contacts: seq<Contact>, query: string, entries: seq<Option<int>>,
                                  confirmAnswer: string, edits: Edits, overrideAnswer: string)
    requires Modify(contacts, query, entries, confirmAnswer, edits, overrideAnswer).outcome == Committed
    ensures SelectedIndex(contacts, query, entries).Some?
    ensures var i := SelectedIndex(contacts, query, entries).value;
            var after := Modify(contacts, query, entries, confirmAnswer, edits, overrideAnswer).contacts;
            && Confirms(confirmAnswer)
            && (forall j | 0 <= j < |contacts| && j != i :: after[j] == contacts[j])
            && Edited(edits.first, IsValidName, contacts[i].firstName, after[i].firstName)
            && Edited(edits.last, IsValidName, contacts[i].lastName, after[i].lastName)
            && Edited(edits.phone, IsValidPhone, contacts[i].phoneNumber, after[i].phoneNumber)
            && Edited(edits.email, IsValidEmail, contacts[i].email, after[i].email)
  {
    var i := SelectedIndex(contacts, query, entries).value;
    ReplacementSpec(contacts[i], edits);
  }

  /** Without the user's `y` to a duplicate warning, modifying keeps the list free of duplicates. */
  lemma {:induction false} ModifyKeepsStoreDistinct(contacts: seq<Contact>, query: string, entries: seq<Option<int>>,
                                                    confirmAnswer: string, edits: Edits, overrideAnswer: string)
    requires Distinct(contacts)
    requires !Confirms(overrideAnswer)
    ensures Distinct(Modify(contacts, query, entries, confirmAnswer, edits, overrideAnswer).contacts)
  {
    var step := Modify(contacts, query, entries, confirmAnswer, edits, overrideAnswer);
    if step.outcome == Committed {
      var i := SelectedIndex(contacts, query, entries).value;
      var rep := Replacement(contacts[i], edits).value;
      assert step.contacts == contacts[i := rep];
      assert !IsDuplicate(contacts, rep);
      forall a, b | 0 <= a < b < |step.contacts| ensures step.contacts[a] != step.contacts[b] {
        if a == i {
          assert step.contacts[b] == contacts[b];
        } else if b == i {
          assert step.contacts[a] == contacts[a];
        }
      }
    }
  }

  /**
   * Because the duplicate test includes the selected contact itself, leaving
   * every field blank makes the unchanged contact its own duplicate: the
   * modification is reported only after the user answers `y` to the warning,
   * and the list is the same either way.
   */
  lemma KeepingEveryFieldAsksToOverride(contacts: seq<Contact>, query: string, entries: seq<Option<int>>,
                                        confirmAnswer: string, edits: Edits, overrideAnswer: string)
    requires SelectedIndex(contacts, query, entries).Some?
    requires Confirms(confirmAnswer)
    requires |edits.first| > 0 && Strip(edits.first[0]) == ""
    requires |edits.last| > 0 && Strip(edits.last[0]) == ""
    requires |edits.phone| > 0 && Strip(edits.phone[0]) == ""
    requires |edits.email| > 0 && Strip(edits.email[0]) == ""
    ensures var step := Modify(contacts, query, entries, confirmAnswer, edits, overrideAnswer);
            && step.contacts == contacts
            && (step.outcome == Committed <==> Confirms(overrideAnswer))
  {
    var i := SelectedIndex(contacts, query, entries).value;
    assert Replacement(contacts[i], edits) == Some(contacts[i]);
    assert IsDuplicate(contacts, contacts[i]);
    assert contacts[i := contacts[i]] == contacts;
  }

  /**
   * When `modify_contact` commits: a contact was selected, the user confirmed,
   * every field settled, and the result is new or the user answers `y` to the
   * duplicate warning; it then overwrites exactly the selected position.
   * Declining the confirmation, or the duplicate warning, leaves the list as
   * it was, and so does input that runs out after a match was found.
   */
  lemma ModifyCommitsWhen(contacts: seq<Contact>, query: string, entries: seq<Option<int>>,
                          confirmAnswer: string, edits: Edits, overrideAnswer: string)
    ensures var step := Modify(contacts, query, entries, confirmAnswer, edits, overrideAnswer);
            var sel := SelectedIndex(contacts, query, entries);
            var rep := if sel.Some? then Replacement(contacts[sel.value], edits) else None;
            && (step.outcome == Committed <==>
                  && sel.Some? && Confirms(confirmAnswer) && rep.Some?
                  && (!IsDuplicate(contacts, rep.value) || Confirms(overrideAnswer)))
            && (step.outcome == Committed ==> step.contacts == contacts[sel.value := rep.value])
            && (step.outcome == Declined <==>
                  && sel.Some?
                  && (!Confirms(confirmAnswer) || (rep.Some? && IsDuplicate(contacts, rep.value) && !Confirms(overrideAnswer))))
            && (step.outcome == InputEnded <==>
                  && MatchIndices(contacts, query) != []
                  && (sel.None? || (Confirms(confirmAnswer) && rep.None?)))
  {
  }

  // ---- delete_contact ----

  /** The list without the element at position `i`, the rest in order. */
  function RemoveAt(s: seq<Contact>, i: nat): (r: seq<Contact>)
    requires i < |s|
    ensures |r| == |s| - 1
    ensures forall j | 0 <= j < i :: r[j] == s[j]
    ensures forall j | i <= j < |r| :: r[j] == s[j + 1]
    ensures multiset(r) + multiset{s[i]} == multiset(s)
  {
    assert s == s[..i] + [s[i]] + s[i + 1..];
    s[..i] + s[i + 1..]
  }

  /** `delete_contact`: select a match, confirm, and remove that one contact. */
  function Delete(contacts: seq<Contact>, query: string, entries: seq<Option<int>>, confirmAnswer: string): (step: Step)
    ensures step.outcome == NotFound <==> forall i | 0 <= i < |contacts| :: !Matches(contacts[i], query)
    ensures step.outcome == Committed ==> |step.contacts| == |contacts| - 1
    ensures step.outcome != Committed ==> step.contacts == contacts
  {
    if MatchIndices(contacts, query) == [] then
      Step(NotFound, contacts)
    else
      assert Matches(contacts[MatchIndices(contacts, query)[0]], query);
      match SelectedIndex(contacts, query, entries)
      case None => Step(InputEnded, contacts)
      case Some(i) =>
        if Confirms(confirmAnswer) then Step(Committed, RemoveAt(contacts, i)) else Step(Declined, contacts)
  }

  /**
   * A committed deletion removes exactly one contact, one that matches the
   * query and was selected, and keeps the others in their order.
   */
  lemma DeleteRemovesSelected(contacts: seq<Contact>, query: string, entries: seq<Option<int>>, confirmAnswer: string)
    requires Delete(contacts, query, entries, confirmAnswer).outcome == Committed
    ensures SelectedIndex(contacts, query, entries).Some?
    ensures var i := SelectedIndex(contacts, query, entries).value;
            var after := Delete(contacts, query, entries, confirmAnswer).contacts;
            && Confirms(confirmAnswer)
            && Matches(contacts[i], query)
            && multiset(after) + multiset{contacts[i]} == multiset(contacts)
            && (forall j | 0 <= j < i :: after[j] == contacts[j])
            && (forall j | i <= j < |after| :: after[j] == contacts[j + 1])
  {
  }

  /**
   * When `delete_contact` commits: a contact was selected and the user
   * confirmed; it then removes exactly the selected position. A refusal is
   * declined, and input that runs out at the index prompt ends the operation.
   */
  lemma DeleteCommitsWhen(contacts: seq<Contact>, query: string, entries: seq<Option<int>>, confirmAnswer: string)
    ensures var step := Delete(contacts, query, entries, confirmAnswer);
            var sel := SelectedIndex(contacts, query, entries);
            && (step.outcome == Committed <==> sel.Some? && Confirms(confirmAnswer))
            && (step.outcome == Committed ==> step.contacts == RemoveAt(contacts, sel.value))
            && (step.outcome == Declined <==> sel.Some? && !Confirms(confirmAnswer))
            && (step.outcome == InputEnded <==> MatchIndices(contacts, query) != [] && sel.None?)
  {
  }

  /** Deleting never introduces a duplicate. */
  lemma DeleteKeepsStoreDistinct(contacts: seq<Contact>, query: string, entries: seq<Option<int>>, confirmAnswer: string)
    requires Distinct(contacts)
    ensures Distinct(Delete(contacts, query, entries, confirmAnswer).contacts)
  {
    var step := Delete(contacts, query, entries, confirmAnswer);
    if step.outcome == Committed {
      var i := SelectedIndex(contacts, query, entries).value;
      forall a, b | 0 <= a < b < |step.contacts| ensures step.contacts[a] != step.contacts[b] {
        var a' := if a < i then a else a + 1;
        var b' := if b < i then b else b + 1;
        assert step.contacts[a] == contacts[a'] && step.contacts[b] == contacts[b'];
      }
    }
  }

  // ---- the class ----

  class ContactManager {
    /** The contacts in memory, in insertion order. */
    var contacts: seq<Contact>
    /** The contacts file. */
    var file: StoredFile

    /** `__init__` and `load_contacts`: a missing or unreadable file gives an empty list. */
    constructor (stored: StoredFile)
      ensures file == stored
      ensures contacts == (if stored.Saved? then stored.records else [])
    {
      file := stored;
      if stored.Saved? {
        contacts := stored.records;
      } else {
        contacts := [];
      }
    }

    /** `save_contacts`: the file now holds the list. */
    method SaveContacts()
      modifies this
      ensures contacts == old(contacts)
      ensures file == Saved(contacts)
    {
      file := Saved(contacts);
    }

    /** `get_valid_input`: prompt until a stripped line passes `valid`. */
    static method GetValidInput(attempts: seq<string>, valid: string -> bool) returns (r: Option<string>)
      ensures r == FirstValid(attempts, valid)
    {
      var i := 0;
      while i < |attempts|
        invariant 0 <= i <= |attempts|
        invariant FirstValid(attempts, valid) == FirstValid(attempts[i..], valid)
      {
        assert attempts[i..][0] == attempts[i] && attempts[i..][1..] == attempts[i + 1..];
        var value := Strip(attempts[i]);
        if valid(value) {
          return Some(value);
        }
        i := i + 1;
      }
      assert attempts[i..] == [];
      return None;
    }

    /** An argument of `add_contact`: the value passed, or `get_valid_input` when none was. */
    static method ObtainField(f: FieldInput, valid: string -> bool) returns (r: Option<string>)
      ensures r == Obtain(f, valid)
    {
      match f
      case Given(value) =>
        r := Some(value);
      case Prompted(attempts) =>
        r := GetValidInput(attempts, valid);
    }

    /**
     * `_select_contact_from_results`: the only result, or the one whose number
     * (counting from 1) the user types, asking again after a non-number or a
     * number out of range. The result is a position in `results`.
     */
    static method SelectContactFromResults(results: seq<Contact>, entries: seq<Option<int>>) returns (k: Option<nat>)
      requires |results| > 0
      ensures k == Selection(|results|, entries)
    {
      if |results| > 1 {
        var i := 0;
        while i < |entries|
          invariant 0 <= i <= |entries|
          invariant FirstInRange(entries, |results|) == FirstInRange(entries[i..], |results|)
        {
          assert entries[i..][0] == entries[i] && entries[i..][1..] == entries[i + 1..];
          match entries[i] {
            case Some(number) =>
              var choice := number - 1;
              if 0 <= choice < |results| {
                return Some(choice);
              }
            case None =>
          }
          i := i + 1;
        }
        assert entries[i..] == [];
        return None;
      } else {
        return Some(0);
      }
    }

    /** `get_new_value`: a blank line keeps `current`, an invalid one asks again, a valid one is taken. */
    static method GetNewValue(attempts: seq<string>, valid: string -> bool, current: string) returns (r: Option<string>)
      ensures r == NewValue(attempts, valid, current)
      decreases |attempts|
    {
      if attempts == [] {
        return None;
      }
      var newValue := Strip(attempts[0]);
      if newValue == "" {
        return Some(current);
      } else if !valid(newValue) {
        r := GetNewValue(attempts[1..], valid, current);
        return;
      }
      return Some(newValue);
    }

    /** `add_contact`. */
    method AddContact(first: FieldInput, last: FieldInput, phone: FieldInput, email: FieldInput,
                      overrideAnswer: string) returns (outcome: Outcome)
      modifies this
      ensures Step(outcome, contacts) == Add(old(contacts), first, last, phone, email, overrideAnswer)
      ensures file == if outcome == Committed then Saved(contacts) else old(file)
    {
      var f := ObtainField(first, IsValidName);
      var l := ObtainField(last, IsValidName);
      var p := ObtainField(phone, IsValidPhone);
      var e := ObtainField(email, IsValidEmail);
      if f.None? || l.None? || p.None? || e.None? {
        return InputEnded;
      }
      var c := Contact(f.value, l.value, p.value, e.value);
      if IsDuplicate(contacts, c) && !Confirms(overrideAnswer) {
        return Declined;
      }
      contacts := contacts + [c];
      SaveContacts();
      return Committed;
    }

    /** `modify_contact`. */
    method ModifyContact(query: string, entries: seq<Option<int>>, confirmAnswer: string, edits: Edits,
                         overrideAnswer: string) returns (outcome: Outcome)
      modifies this
      ensures Step(outcome, contacts) == Modify(old(contacts), query, entries, confirmAnswer, edits, overrideAnswer)
      ensures file == if outcome == Committed then Saved(contacts) else old(file)
    {
      var results := Search(contacts, query);
      var positions := MatchIndices(contacts, query);
      SearchAtMatchIndices(contacts, query);
      if results == [] {
        return NotFound;
      }
      var k := SelectContactFromResults(results, entries);
      if k.None? {
        return InputEnded;
      }
      if !Confirms(confirmAnswer) {
        return Declined;
      }
      var index := positions[k.value];
      var target := contacts[index];
      var f := GetNewValue(edits.first, IsValidName, target.firstName);
      var l := GetNewValue(edits.last, IsValidName, target.lastName);
      var p := GetNewValue(edits.phone, IsValidPhone, target.phoneNumber);
      var e := GetNewValue(edits.email, IsValidEmail, target.email);
      if f.None? || l.None? || p.None? || e.None? {
        return InputEnded;
      }
      var rep := Contact(f.value, l.value, p.value, e.value);
      if IsDuplicate(contacts, rep) && !Confirms(overrideAnswer) {
        return Declined;
      }
      contacts := contacts[index := rep];
      SaveContacts();
      return Committed;
    }

    /** `delete_contact`. */
    method DeleteContact(query: string, entries: seq<Option<int>>, confirmAnswer: string) returns (outcome: Outcome)
      modifies this
      ensures Step(outcome, contacts) == Delete(old(contacts), query, entries, confirmAnswer)
      ensures file == if outcome == Committed then Saved(contacts) else old(file)
    {
      var results := Search(contacts, query);
      var positions := MatchIndices(contacts, query);
      SearchAtMatchIndices(contacts, query);
      if results == [] {
        return NotFound;
      }
      var k := SelectContactFromResults(results, entries);
      if k.None? {
        return InputEnded;
      }
      var index := positions[k.value];
      if Confirms(confirmAnswer) {
        contacts := RemoveAt(contacts, index);
        SaveContacts();
        return Committed;
      }
      return Declined;
    }
  }
}
