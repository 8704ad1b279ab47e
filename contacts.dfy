/**
 * The contact record and the two read-only queries over the ordered list of
 * records: the exact duplicate test and the case-folded search.
 */
module Contacts {
  import opened Chars

  /** One contact: four strings, compared field by field. */
  datatype Contact = Contact(firstName: string, lastName: string, phoneNumber: string, email: string)

  /** Python's `needle in hay` on strings. */
  function IsSubstring(needle: string, hay: string): (found: bool)
    ensures found <==> exists i | 0 <= i <= |hay| :: needle <= hay[i..]
    decreases |hay|
  {
    if needle <= hay then
      assert needle <= hay[0..];
      true
    else if hay == [] then
      false
    else
      var rest := IsSubstring(needle, hay[1..]);
      assert forall i | 1 <= i <= |hay| :: hay[1..][i - 1..] == hay[i..];
      rest
  }

  /** `_is_duplicate`: some stored contact agrees with the candidate in all four fields. */
  function IsDuplicate(contacts: seq<Contact>, candidate: Contact): (dup: bool)
    ensures dup <==> exists i | 0 <= i < |contacts| :: contacts[i] == candidate
  {
    if contacts == [] then
      false
    else
      var c := contacts[0];
      var same := && c.firstName == candidate.firstName
                  && c.lastName == candidate.lastName
                  && c.phoneNumber == candidate.phoneNumber
                  && c.email == candidate.email;
      var rest := IsDuplicate(contacts[1..], candidate);
      assert forall i | 1 <= i < |contacts| :: contacts[1..][i - 1] == contacts[i];
      same || rest
  }

  /**
   * The filter of `search_contact`: the lower-cased query occurs in the
   * lower-cased first name, last name or e-mail, or in the phone number as stored.
   */
  predicate Matches(c: Contact, query: string) {
    var q := Lower(query);
    || IsSubstring(q, Lower(c.firstName))
    || IsSubstring(q, Lower(c.lastName))
    || IsSubstring(q, c.phoneNumber)
    || IsSubstring(q, Lower(c.email))
  }

  /** The filter of a list comprehension: the elements that `keep` accepts, in list order. */
  function Filter(s: seq<Contact>, keep: Contact -> bool): (kept: seq<Contact>)
    ensures |kept| <= |s|
    ensures forall k | 0 <= k < |kept| :: kept[k] in s && keep(kept[k])
    ensures forall i | 0 <= i < |s| && keep(s[i]) :: s[i] in kept
  {
    if s == [] then
      []
    else
      var n := |s| - 1;
      var earlier := Filter(s[..n], keep);
      if keep(s[n]) then earlier + [s[n]] else earlier
  }

  /**
   * The positions in `s` of the elements that `keep` accepts, in increasing
   * order: which stored element each kept element is.
   */
  function Positions(s: seq<Contact>, keep: Contact -> bool): (positions: seq<nat>)
    ensures forall k | 0 <= k < |positions| :: positions[k] < |s| && keep(s[positions[k]])
    ensures forall k, l | 0 <= k < l < |positions| :: positions[k] < positions[l]
    ensures forall i | 0 <= i < |s| && keep(s[i]) :: i in positions
  {
    if s == [] then
      []
    else
      var n := |s| - 1;
      var earlier := Positions(s[..n], keep);
      if keep(s[n]) then earlier + [n] else earlier
  }

  /** The k-th kept element is the element at the k-th position. */
  lemma {:induction false} FilterAtPositions(s: seq<Contact>, keep: Contact -> bool)
    ensures |Filter(s, keep)| == |Positions(s, keep)|
    ensures forall k | 0 <= k < |Filter(s, keep)| :: Filter(s, keep)[k] == s[Positions(s, keep)[k]]
  {
    if s != [] {
      var n := |s| - 1;
      var prefix := s[..n];
      FilterAtPositions(prefix, keep);
      var earlier, positions := Filter(prefix, keep), Positions(prefix, keep);
      var kept, all := Filter(s, keep), Positions(s, keep);
      if keep(s[n]) {
        assert kept == earlier + [s[n]];
        assert all == positions + [n];
      } else {
        assert kept == earlier && all == positions;
      }
      forall k | 0 <= k < |kept| ensures kept[k] == s[all[k]] {
        if k < |earlier| {
          assert kept[k] == earlier[k] == prefix[positions[k]];
          assert all[k] == positions[k];
        }
      }
    }
  }

  lemma {:induction false} FilterKeepsAll(s: seq<Contact>, keep: Contact -> bool)
    requires forall i | 0 <= i < |s| :: keep(s[i])
    ensures Filter(s, keep) == s
  {
    if s != [] {
      var n := |s| - 1;
      FilterKeepsAll(s[..n], keep);
      assert s == s[..n] + [s[n]];
    }
  }

  lemma {:induction false} FilterCongruent(s: seq<Contact>, keep: Contact -> bool, keep': Contact -> bool)
    requires forall i | 0 <= i < |s| :: keep(s[i]) == keep'(s[i])
    ensures Filter(s, keep) == Filter(s, keep')
  {
    if s != [] {
      FilterCongruent(s[..|s| - 1], keep, keep');
    }
  }

  function Matcher(query: string): Contact -> bool {
    c => Matches(c, query)
  }

  /** `search_contact`: the contacts that match the query, in the order of the list. */
  function Search(contacts: seq<Contact>, query: string): (results: seq<Contact>)
    ensures |results| <= |contacts|
    ensures forall k | 0 <= k < |results| :: results[k] in contacts && Matches(results[k], query)
    ensures forall i | 0 <= i < |contacts| && Matches(contacts[i], query) :: contacts[i] in results
  {
    Filter(contacts, Matcher(query))
  }

  /**
   * The positions in `contacts` of the search results. Python's records have
   * identity, so the record picked from the results is the one at that
   * position, even when another record holds equal fields.
   */
  function MatchIndices(contacts: seq<Contact>, query: string): (positions: seq<nat>)
    ensures forall k | 0 <= k < |positions| :: positions[k] < |contacts| && Matches(contacts[positions[k]], query)
    ensures forall k, l | 0 <= k < l < |positions| :: positions[k] < positions[l]
    ensures forall i | 0 <= i < |contacts| && Matches(contacts[i], query) :: i in positions
  {
    Positions(contacts, Matcher(query))
  }

  /** The k-th search result is the record at the k-th matching position. */
  lemma SearchAtMatchIndices(contacts: seq<Contact>, query: string)
    ensures |Search(contacts, query)| == |MatchIndices(contacts, query)|
    ensures forall k | 0 <= k < |Search(contacts, query)| ::
              Search(contacts, query)[k] == contacts[MatchIndices(contacts, query)[k]]
  {
    FilterAtPositions(contacts, Matcher(query));
  }

  /** The empty query is a substring of every field, so it returns the whole list. */
  lemma EmptyQueryReturnsAll(contacts: seq<Contact>)
    ensures Search(contacts, "") == contacts
  {
    forall i | 0 <= i < |contacts| ensures Matches(contacts[i], "") {
      assert "" <= Lower(contacts[i].firstName)[0..];
    }
    FilterKeepsAll(contacts, Matcher(""));
  }

  /** The query is lower-cased before matching, so its case never matters. */
  lemma SearchIgnoresQueryCase(contacts: seq<Contact>, query: string)
    ensures Search(contacts, query) == Search(contacts, Lower(query))
  {
    LowerIdempotent(query);
    FilterCongruent(contacts, Matcher(query), Matcher(Lower(query)));
  }

  lemma FirstNameMatches(c: Contact, query: string)
    requires Lower(query) <= Lower(c.firstName)
    ensures Matches(c, query)
  {
    assert Lower(query) <= Lower(c.firstName)[0..];
  }

  /** Searching "jane" in Jane Roe, Jane Doe yields both, in list order. */
  lemma SearchScenario(a: Contact, b: Contact)
    requires a == Contact("Jane", "Roe", "555", "jane@x.com")
    requires b == Contact("Jane", "Doe", "666", "jane2@x.com")
    ensures Search([a, b], "jane") == [a, b]
    ensures MatchIndices([a, b], "jane") == [0, 1]
  {
    assert Lower("jane") == "jane" && Lower("Jane") == "jane";
    FirstNameMatches(a, "jane");
    FirstNameMatches(b, "jane");
    assert [a, b][..1] == [a] && [a][..0] == [];
    var keep := Matcher("jane");
    assert keep(a) && keep(b);
    assert Search([a], "jane") == [a];
    assert Positions([a][..0], keep) == [];
    assert Positions([a], keep) == [0];
  }

  /** A lower-case query finds a capitalised name; digits find a phone number by substring. */
  lemma MatchScenario(c: Contact)
    requires c == Contact("John", "Doe", "+1234567890", "john.doe@example.com")
    ensures Matches(c, "jo") && Matches(c, "123")
  {
    assert Lower("John") == "john";
    assert Lower("jo") == "jo";
    assert "jo" <= Lower(c.firstName)[0..];
    assert Lower("123") == "123";
    assert "123" <= c.phoneNumber[1..];
  }
}
