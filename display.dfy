/**
 * The order in which `display_contacts` lists the book: Python's `sorted`
 * with the key `(first_name, last_name)`. Python compares strings by code
 * point, tuples field by field, and `sorted` is stable.
 */
module Display {
  import opened Contacts

  /** Python's `<` on `str`: lexicographic by code point, a proper prefix being smaller. */
  predicate StrLess(a: string, b: string) {
    |b| > 0 && (|a| == 0 || a[0] < b[0] || (a[0] == b[0] && StrLess(a[1..], b[1..])))
  }

  /** `<` on the sort key `(first_name, last_name)`. */
  predicate KeyLess(x: Contact, y: Contact) {
    || StrLess(x.firstName, y.firstName)
    || (x.firstName == y.firstName && StrLess(x.lastName, y.lastName))
  }

  predicate SameKey(x: Contact, y: Contact) {
    x.firstName == y.firstName && x.lastName == y.lastName
  }

  lemma {:induction false} StrLessIrreflexive(a: string)
    ensures !StrLess(a, a)
  {
    if |a| > 0 {
      StrLessIrreflexive(a[1..]);
    }
  }

  lemma {:induction false} StrLessTransitive(a: string, b: string, c: string)
    requires StrLess(a, b) && StrLess(b, c)
    ensures StrLess(a, c)
  {
    if |a| > 0 && a[0] == b[0] && b[0] == c[0] {
      StrLessTransitive(a[1..], b[1..], c[1..]);
    }
  }

  lemma {:induction false} StrLessTotal(a: string, b: string)
    ensures a == b || StrLess(a, b) || StrLess(b, a)
  {
    if |a| > 0 && |b| > 0 && a[0] == b[0] {
      StrLessTotal(a[1..], b[1..]);
      if a[1..] == b[1..] {
        assert a == [a[0]] + a[1..] && b == [b[0]] + b[1..];
      }
    }
  }

  /** The key order is a strict total order on keys: two keys are equal or one is smaller. */
  lemma KeyLessIsStrictTotalOrder(x: Contact, y: Contact, z: Contact)
    ensures !KeyLess(x, x)
    ensures KeyLess(x, y) && KeyLess(y, z) ==> KeyLess(x, z)
    ensures SameKey(x, y) || KeyLess(x, y) || KeyLess(y, x)
    ensures !(SameKey(x, y) && KeyLess(x, y))
  {
    StrLessIrreflexive(x.firstName);
    StrLessIrreflexive(x.lastName);
    StrLessTotal(x.firstName, y.firstName);
    StrLessTotal(x.lastName, y.lastName);
    if StrLess(x.firstName, y.firstName) && StrLess(y.firstName, z.firstName) {
      StrLessTransitive(x.firstName, y.firstName, z.firstName);
    }
    if StrLess(x.lastName, y.lastName) && StrLess(y.lastName, z.lastName) {
      StrLessTransitive(x.lastName, y.lastName, z.lastName);
    }
  }

  /** Not-smaller is transitive: what sorting needs to chain neighbours. */
  lemma KeyNotLessTransitive(x: Contact, y: Contact, z: Contact)
    requires !KeyLess(y, x) && !KeyLess(z, y)
    ensures !KeyLess(z, x)
  {
    KeyLessIsStrictTotalOrder(x, y, z);
    KeyLessIsStrictTotalOrder(y, z, x);
    KeyLessIsStrictTotalOrder(z, x, y);
    KeyLessIsStrictTotalOrder(z, y, x);
    KeyLessIsStrictTotalOrder(y, x, z);
    KeyLessIsStrictTotalOrder(x, z, y);
  }

  ghost predicate SortedByKey(s: seq<Contact>) {
    forall i, j | 0 <= i < j < |s| :: !KeyLess(s[j], s[i])
  }

  /** Place `x` before the first element that is not smaller than it. */
  function Insert(x: Contact, s: seq<Contact>): (r: seq<Contact>)
    ensures multiset(r) == multiset(s) + multiset{x}
  {
    if s == [] || !KeyLess(s[0], x) then
      [x] + s
    else
      assert s == [s[0]] + s[1..];
      [s[0]] + Insert(x, s[1..])
  }

  lemma {:induction false} InsertKeepsSorted(x: Contact, s: seq<Contact>)
    requires SortedByKey(s)
    ensures SortedByKey(Insert(x, s))
  {
    var r := Insert(x, s);
    if s == [] || !KeyLess(s[0], x) {
      forall j | 0 < j < |r| ensures !KeyLess(r[j], r[0]) {
        assert r[j] == s[j - 1];
        if j > 1 {
          KeyNotLessTransitive(x, s[0], s[j - 1]);
        }
      }
    } else {
      var rest := Insert(x, s[1..]);
      InsertKeepsSorted(x, s[1..]);
      KeyLessIsStrictTotalOrder(s[0], x, s[0]);
      forall j | 0 <= j < |rest| ensures !KeyLess(rest[j], s[0]) {
        assert rest[j] in multiset(rest);
        if rest[j] != x {
          assert rest[j] in multiset(s[1..]);
          var k :| 0 <= k < |s[1..]| && s[1..][k] == rest[j];
          assert rest[j] == s[k + 1];
        }
      }
    }
  }

  /** `sorted(contacts, key=lambda c: (c.first_name, c.last_name))`. */
  function SortForDisplay(contacts: seq<Contact>): (sorted: seq<Contact>)
    ensures multiset(sorted) == multiset(contacts)
    ensures SortedByKey(sorted)
  {
    if contacts == [] then
      []
    else
      var rest := SortForDisplay(contacts[1..]);
      InsertKeepsSorted(contacts[0], rest);
      assert contacts == [contacts[0]] + contacts[1..];
      Insert(contacts[0], rest)
  }

  /** The contacts whose key is `(first, last)`, in list order. */
  function WithKey(s: seq<Contact>, first: string, last: string): seq<Contact> {
    if s == [] then
      []
    else
      (if s[0].firstName == first && s[0].lastName == last then [s[0]] else []) + WithKey(s[1..], first, last)
  }

  lemma {:induction false} InsertIsStable(x: Contact, s: seq<Contact>, first: string, last: string)
    ensures WithKey(Insert(x, s), first, last)
         == (if x.firstName == first && x.lastName == last then [x] else []) + WithKey(s, first, last)
  {
    if s != [] && KeyLess(s[0], x) {
      InsertIsStable(x, s[1..], first, last);
      KeyLessIsStrictTotalOrder(s[0], x, x);
      assert [s[0]] + Insert(x, s[1..]) == Insert(x, s);
    }
  }

  /** Contacts with equal keys keep their relative order, as Python's `sorted` guarantees. */
  lemma {:induction false} SortIsStable(contacts: seq<Contact>, first: string, last: string)
    ensures WithKey(SortForDisplay(contacts), first, last) == WithKey(contacts, first, last)
  {
    if contacts != [] {
      SortIsStable(contacts[1..], first, last);
      InsertIsStable(contacts[0], SortForDisplay(contacts[1..]), first, last);
    }
  }
}
