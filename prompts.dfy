/**
 * What the contact manager's prompts return. Each call to `input()` is
 * replaced by the next element of a sequence supplied up front: the raw lines
 * a user types, or, for the index prompt, the outcome of `int(...)` on the
 * line (`None` where `int` raises `ValueError`). When the supplied lines run
 * out before a prompt is satisfied the result is `None`: the program would
 * still be waiting for input.
 */
module Prompts {
  import opened Wrappers
  import opened Chars

  /** `get_valid_input`: the first stripped line that the validator accepts. */
  function FirstValid(attempts: seq<string>, valid: string -> bool): Option<string> {
    if attempts == [] then
      None
    else
      var value := Strip(attempts[0]);
      if valid(value) then Some(value) else FirstValid(attempts[1..], valid)
  }

  /** Line `i` is the first that the validator accepts. */
  ghost predicate FirstAcceptedAt(attempts: seq<string>, valid: string -> bool, i: int) {
    && 0 <= i < |attempts|
    && valid(Strip(attempts[i]))
    && forall j | 0 <= j < i :: !valid(Strip(attempts[j]))
  }

  lemma {:induction false} FirstValidSpec(attempts: seq<string>, valid: string -> bool)
    ensures FirstValid(attempts, valid).None? <==> forall i | 0 <= i < |attempts| :: !valid(Strip(attempts[i]))
    ensures FirstValid(attempts, valid).Some? ==>
              exists i :: FirstAcceptedAt(attempts, valid, i) && FirstValid(attempts, valid).value == Strip(attempts[i])
  {
    if attempts == [] {
    } else if valid(Strip(attempts[0])) {
      assert FirstAcceptedAt(attempts, valid, 0);
    } else {
      var rest := attempts[1..];
      FirstValidSpec(rest, valid);
      assert forall i | 1 <= i < |attempts| :: rest[i - 1] == attempts[i];
      if FirstValid(rest, valid).Some? {
        var i :| FirstAcceptedAt(rest, valid, i) && FirstValid(rest, valid).value == Strip(rest[i]);
        assert FirstAcceptedAt(attempts, valid, i + 1);
      }
    }
  }

  /** A line that ends the `get_new_value` prompt: blank, or accepted by the validator. */
  predicate Settles(attempt: string, valid: string -> bool) {
    Strip(attempt) == "" || valid(Strip(attempt))
  }

  /**
   * `get_new_value`: a blank line keeps `current`, an invalid line asks again,
   * and a valid line is the new value.
   */
  function NewValue(attempts: seq<string>, valid: string -> bool, current: string): Option<string> {
    if attempts == [] then
      None
    else
      var value := Strip(attempts[0]);
      if value == "" then Some(current)
      else if !valid(value) then NewValue(attempts[1..], valid, current)
      else Some(value)
  }

  /** Line `i` is the first blank or valid one. */
  ghost predicate FirstSettledAt(attempts: seq<string>, valid: string -> bool, i: int) {
    && 0 <= i < |attempts|
    && Settles(attempts[i], valid)
    && forall j | 0 <= j < i :: !Settles(attempts[j], valid)
  }

  /** `get_new_value` gives up only if no line is blank or valid. */
  lemma {:induction false} NewValueNone(attempts: seq<string>, valid: string -> bool, current: string)
    ensures NewValue(attempts, valid, current).None? <==>
              forall i | 0 <= i < |attempts| :: !Settles(attempts[i], valid)
  {
    if attempts != [] && !Settles(attempts[0], valid) {
      var rest := attempts[1..];
      NewValueNone(rest, valid, current);
      assert forall i | 1 <= i < |attempts| :: rest[i - 1] == attempts[i];
    }
  }

  /** The first blank or valid line decides: blank keeps `current`, valid replaces it. */
  lemma {:induction false} NewValueSome(attempts: seq<string>, valid: string -> bool, current: string)
    requires NewValue(attempts, valid, current).Some?
    ensures exists i :: && FirstSettledAt(attempts, valid, i)
                        && NewValue(attempts, valid, current).value
                           == (if Strip(attempts[i]) == "" then current else Strip(attempts[i]))
  {
    if Settles(attempts[0], valid) {
      assert FirstSettledAt(attempts, valid, 0);
    } else {
      var rest := attempts[1..];
      NewValueSome(rest, valid, current);
      var i :| && FirstSettledAt(rest, valid, i)
               && NewValue(rest, valid, current).value
                  == (if Strip(rest[i]) == "" then current else Strip(rest[i]));
      assert forall j | 1 <= j < |attempts| :: rest[j - 1] == attempts[j];
      assert FirstSettledAt(attempts, valid, i + 1);
    }
  }

  /** Every field edited through `get_new_value` is either kept as it was or accepted by its validator. */
  lemma KeptOrValidated(attempts: seq<string>, valid: string -> bool, current: string)
    requires NewValue(attempts, valid, current).Some?
    ensures NewValue(attempts, valid, current).value == current
            || valid(NewValue(attempts, valid, current).value)
  {
    NewValueSome(attempts, valid, current);
  }

  /** An entry the index prompt accepts for `n` listed results: a number from 1 to n. */
  predicate InRange(entry: Option<int>, n: nat) {
    entry.Some? && 1 <= entry.value <= n
  }

  /**
   * The retry loop of `_select_contact_from_results`: the 0-based position
   * named by the first entry from 1 to `n`.
   */
  function FirstInRange(entries: seq<Option<int>>, n: nat): Option<nat> {
    if entries == [] then
      None
    else
      match entries[0]
      case None => FirstInRange(entries[1..], n)
      case Some(number) =>
        var choice := number - 1;
        if 0 <= choice < n then Some(choice) else FirstInRange(entries[1..], n)
  }

  /** Entry `i` is the first in range. */
  ghost predicate FirstInRangeAt(entries: seq<Option<int>>, n: nat, i: int) {
    && 0 <= i < |entries|
    && InRange(entries[i], n)
    && forall j | 0 <= j < i :: !InRange(entries[j], n)
  }

  /** Entries out of range and non-numbers are skipped, never clamped: the choice is an entry as typed. */
  lemma {:induction false} FirstInRangeSpec(entries: seq<Option<int>>, n: nat)
    ensures FirstInRange(entries, n).None? <==> forall i | 0 <= i < |entries| :: !InRange(entries[i], n)
    ensures FirstInRange(entries, n).Some? ==>
              && FirstInRange(entries, n).value < n
              && exists i :: FirstInRangeAt(entries, n, i) && entries[i] == Some(FirstInRange(entries, n).value + 1)
  {
    if entries == [] {
    } else if InRange(entries[0], n) {
      assert FirstInRangeAt(entries, n, 0);
    } else {
      var rest := entries[1..];
      FirstInRangeSpec(rest, n);
      assert forall i | 1 <= i < |entries| :: rest[i - 1] == entries[i];
      if FirstInRange(rest, n).Some? {
        var i :| FirstInRangeAt(rest, n, i) && rest[i] == Some(FirstInRange(rest, n).value + 1);
        assert FirstInRangeAt(entries, n, i + 1);
      }
    }
  }

  /** `_select_contact_from_results` on `n` results: the only one, or the one the user names. */
  function Selection(n: nat, entries: seq<Option<int>>): (k: Option<nat>)
    requires n > 0
    ensures k.Some? ==> k.value < n
  {
    if n > 1 then
      FirstInRangeSpec(entries, n);
      FirstInRange(entries, n)
    else
      Some(0)
  }

  /** The yes/no gate: `input().strip().lower() == 'y'`. */
  function Confirms(answer: string): (yes: bool)
    ensures yes <==> Strip(answer) == "y" || Strip(answer) == "Y"
  {
    var a := Strip(answer);
    assert |Lower(a)| == |a|;
    assert |a| == 1 ==> Lower(a) == [LowerChar(a[0])];
    Lower(a) == "y"
  }
}
