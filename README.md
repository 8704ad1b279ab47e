# Contact manager in Dafny

A model of the core of a single-user command-line contact book
(`contact_manager.py`). A contact is four strings: first name, last name,
phone number, email. The `ContactManager` class keeps them in an ordered list
in memory and persists the list to a file. It adds, searches, modifies and
deletes contacts. The model covers:

- the three field validators, a regular expression each, stated as predicates on
  characters and proved equal to a plain reading of the pattern (`Validators`);
- Python's `str.strip()` and ASCII `lower()` (`Chars`);
- the exact four-field duplicate test, the case-insensitive substring search,
  and the positions of the matches in the list (`Contacts`);
- the display order, a stable sort on (first name, last name) (`Display`);
- the retry loops behind every prompt: `get_valid_input`,
  `get_new_value`, the numbered choice in `_select_contact_from_results`, and
  the `y` confirmation (`Prompts`);
- the class itself, with its load, save, add, modify and delete methods.
  Each operation is also a function from the list before the call to a
  `Step` (outcome and list after), and the methods are proved to land on it
  (`Manager`).

Each call to `input()` is replaced by a parameter. A field prompt gets the
sequence of raw lines the user types; the model strips them as the program does.
The index prompt gets a sequence of `Option<int>`: `None` is a line on which
`int()` raises `ValueError`. A yes/no question gets the raw answer. When a
prompt loop runs out of supplied lines, the operation ends with outcome
`InputEnded` and the list and the file are unchanged: the program would still
be waiting at that prompt.

Python's `Contact` has no `__eq__`. So `list.index` and `list.remove` in modify
and delete find the selected object by identity, and every object in the list
is distinct. The model therefore carries the position at which the search
found the selected contact (`MatchIndices`), and modify and delete act on that
position. `SelectedIsListedNumber` pins that position to the match listed under
the number typed, so of two contacts with equal fields the one the user chose
is the one changed.

The docstring of `add_contact` (`contact_manager.py:95-97`) says it validates
the values for all four fields. The code validates only the fields it prompts
for: an argument passed by the caller is stored as given
(`GivenNameIsNotValidated`). The model follows the code.

The duplicate check in `modify_contact` runs over the whole list, including the
contact being modified, so keeping every field triggers the duplicate warning
(`KeepingEveryFieldAsksToOverride`).

## Model

| member | source | states |
|---|---|---|
| Chars.Strip | contact_manager.py:85 | Python's `str.strip()`: whitespace removed at both ends; characterized by the lemmas below |
| Chars.Lower | contact_manager.py:399-403 | `str.lower()` on ASCII letters, each character mapped on its own; see `LowerIdempotent` |
| Chars.TrimStartSpec | contact_manager.py:85 | leading-whitespace removal drops exactly a whitespace prefix and stops at the first non-whitespace character |
| Chars.TrimEndSpec | contact_manager.py:85 | trailing-whitespace removal drops exactly a whitespace suffix and stops at the last non-whitespace character |
| Chars.StripIsSlice | contact_manager.py:85 | `strip()` returns a contiguous slice of the line and everything cut on either side is whitespace |
| Chars.StripTrimsBothEnds | contact_manager.py:85 | a non-empty stripped line neither starts nor ends with whitespace |
| Chars.StripBlank | contact_manager.py:271-272 | a line strips to "" exactly when it is all whitespace, which is what "leave blank to keep current" accepts |
| Chars.StripHasNoFinalNewline | contact_manager.py:85 | a stripped line never ends in a newline, so the `$`-before-newline case of the validators never applies to prompted input |
| Chars.LowerIdempotent | contact_manager.py:399 | lower-casing twice is lower-casing once |
| Chars.SpanLength | contact_manager.py:147 | the length of the longest prefix whose characters all satisfy a class, as a regex `+`/`*` run consumes it |
| Chars.SuffixSpanLength | contact_manager.py:171 | the length of the longest suffix whose characters all satisfy a class (the final `\w+` of the email pattern) |
| Validators.IsValidName | contact_manager.py:147 | the name pattern `^[A-Za-z\s]+$`, matched from the start, with `$` also matching before a final newline; characterized by `NameValidatorAccepts` |
| Validators.IsValidPhone | contact_manager.py:160 | the phone pattern `^\+?[0-9]*$`, with the same `$` rule; characterized by `PhoneValidatorAccepts` |
| Validators.IsValidEmail | contact_manager.py:171 | the email pattern `^[\w\.-]+@[\w\.-]+\.\w+$`, with the same `$` rule; characterized by `EmailValidatorAccepts` |
| Validators.NameValidatorAccepts | contact_manager.py:147 | a name is valid iff it is non-empty and every character is an ASCII letter or whitespace |
| Validators.PhoneBodyIsShape | contact_manager.py:160 | the phone body matches iff every character is a digit, except that the first may be `+` |
| Validators.PhoneValidatorAccepts | contact_manager.py:160 | a phone is valid iff it has that shape, possibly followed by one final newline |
| Validators.EmailBodyHasShape | contact_manager.py:171 | a matched email splits as local part, `@`, domain, `.`, word-character suffix with the characters of each class |
| Validators.EmailShapeHasBody | contact_manager.py:171 | any string with such a split is matched by the email pattern, whatever the backtracking would choose |
| Validators.DomainHasBody | contact_manager.py:171 | a domain with some `.` followed only by word characters, and part characters before it, is matched by `[\w\.-]+\.\w+$` |
| Validators.SpanOfMaximalPrefix | contact_manager.py:171 | a run stops exactly at the first character outside its class |
| Validators.SuffixSpanOfMaximalSuffix | contact_manager.py:171 | a suffix run stops exactly at the last character outside its class |
| Validators.SpanOfFullPrefix | contact_manager.py:147 | a run over a string all of whose characters are in the class covers the whole string |
| Validators.EmailValidatorAccepts | contact_manager.py:171 | an email is valid iff it has the split shape, possibly followed by one final newline |
| Validators.EmailHasOneAt | contact_manager.py:171 | a valid email has exactly one `@`, and its last `.` is followed by word characters only |
| Validators.StrippedPhoneAccepts | contact_manager.py:85-86 | on a stripped line the phone validator is exactly the shape test |
| Validators.StrippedEmailAccepts | contact_manager.py:85-86 | on a stripped line the email validator is exactly the shape test |
| Validators.PhoneAcceptsEmptyAndPlus | contact_manager.py:160 | the phone pattern accepts "" and a lone "+" |
| Validators.PhoneRejectsInnerPlus | contact_manager.py:160 | a `+` anywhere but first is refused |
| Validators.EmailAcceptsExample | contact_manager.py:171 | `john.doe@example.com` is valid |
| Validators.EmailRejectsMissingDot | contact_manager.py:171 | `john@example` is refused: the domain needs a dot |
| Validators.EmailRejectsTwoAts | contact_manager.py:171 | `a@b@c.d` is refused |
| Validators.EmailRejectsEmptyDomain | contact_manager.py:171 | `a@.c` is refused: the part before the last dot must be non-empty |
| Contacts.Matches | contact_manager.py:399-403 | the search condition: the lower-cased query occurs in the lower-cased first name, last name or email, or in the raw phone number |
| Contacts.IsSubstring | contact_manager.py:400-403 | Python's `in` on strings: the needle occurs at some offset of the haystack |
| Contacts.IsDuplicate | contact_manager.py:182-185 | a candidate is a duplicate iff some stored contact equals it in all four fields |
| Contacts.Filter | contact_manager.py:400 | the list comprehension keeps only elements satisfying the condition, every such element, and no more elements than the input has |
| Contacts.Positions | contact_manager.py:400 | the positions of the kept elements are in range, satisfy the condition, increase strictly, and include every satisfying position |
| Contacts.FilterAtPositions | contact_manager.py:400 | the k-th kept element is the element at the k-th kept position, so results and positions correspond one to one |
| Contacts.FilterKeepsAll | contact_manager.py:400 | when every element satisfies the condition the comprehension returns the list unchanged |
| Contacts.FilterCongruent | contact_manager.py:400 | conditions that agree on the list give the same result |
| Contacts.Search | contact_manager.py:399-403 | every result is a stored contact matching the lower-cased query in a lower-cased name or email or the raw phone, and every matching contact is returned |
| Contacts.MatchIndices | contact_manager.py:399-403 | the list positions of the search results: in range, matching, increasing, complete |
| Contacts.SearchAtMatchIndices | contact_manager.py:400-403 | the k-th search result is the contact at the k-th match position |
| Contacts.EmptyQueryReturnsAll | contact_manager.py:399-403 | an empty query returns the whole list in order |
| Contacts.SearchIgnoresQueryCase | contact_manager.py:399 | the query's case does not affect the results |
| Contacts.FirstNameMatches | contact_manager.py:400 | a query that starts the lower-cased first name matches |
| Contacts.SearchScenario | contact_manager.py:399-403 | "jane" finds both Janes in list order at positions 0 and 1 |
| Contacts.MatchScenario | contact_manager.py:399-403 | "jo" and "123" both find John Doe, +1234567890 |
| Display.StrLessIrreflexive | contact_manager.py:195 | string order is irreflexive |
| Display.StrLessTransitive | contact_manager.py:195 | string order is transitive |
| Display.StrLessTotal | contact_manager.py:195 | any two different strings are ordered one way |
| Display.KeyLessIsStrictTotalOrder | contact_manager.py:195 | the (first name, last name) key is a strict total order on keys |
| Display.KeyNotLessTransitive | contact_manager.py:195 | "not smaller" is transitive on keys |
| Display.Insert | contact_manager.py:195 | inserting adds exactly one copy of the element |
| Display.InsertKeepsSorted | contact_manager.py:195 | inserting into a key-sorted list keeps it key-sorted |
| Display.SortForDisplay | contact_manager.py:195 | `sorted` returns a permutation of the list ordered by key |
| Display.InsertIsStable | contact_manager.py:195 | insertion keeps the relative order of contacts with equal keys |
| Display.SortIsStable | contact_manager.py:195 | contacts with the same names stay in list order, as Python's stable `sorted` keeps them |
| Prompts.FirstValid | contact_manager.py:84-89 | the `while True` loop of `get_valid_input` over the supplied lines; characterized by `FirstValidSpec` |
| Prompts.NewValue | contact_manager.py:271-277 | the recursion of `get_new_value` over the supplied lines; characterized by `NewValueNone` and `NewValueSome` |
| Prompts.FirstInRange | contact_manager.py:316-324 | the retry loop of the index prompt; characterized by `FirstInRangeSpec` |
| Prompts.FirstValidSpec | contact_manager.py:84-89 | `get_valid_input` returns nothing iff no stripped line is valid, else the first valid stripped line |
| Prompts.NewValueNone | contact_manager.py:271-277 | `get_new_value` keeps asking iff no line is blank or valid |
| Prompts.NewValueSome | contact_manager.py:271-277 | the first blank or valid line decides: blank keeps the current value, valid replaces it |
| Prompts.KeptOrValidated | contact_manager.py:271-277 | the value returned is the current one or passes the validator |
| Prompts.FirstInRangeSpec | contact_manager.py:316-324 | the index loop gives up only if no entry is a number from 1 to n; otherwise it returns the first such number minus one |
| Prompts.Selection | contact_manager.py:312-326 | the selected result position is within the results |
| Prompts.Confirms | contact_manager.py:238-239 | an answer confirms iff it strips to `y` or `Y` |
| Manager.Candidate | contact_manager.py:120-124 | the four fields `add_contact` ends up with, each passed or prompted; characterized by `ObtainSpec` and `AddedContactIsValidated` |
| Manager.Replacement | contact_manager.py:279-289 | the four `get_new_value` calls on the selected contact's fields; characterized by `ReplacementSpec` |
| Manager.ObtainSpec | contact_manager.py:120-124 | a passed argument is used as is; a prompted one fails iff no line is valid, else it is the first valid stripped line |
| Manager.Add | contact_manager.py:120-135 | add only appends: on commit the list grows by one and keeps its old prefix; otherwise nothing changes |
| Manager.AddedContactIsValidated | contact_manager.py:120-134 | every field of an added contact was passed by the caller or is the first line its validator accepted |
| Manager.AddEndsOnlyWithoutValidLine | contact_manager.py:80-89 | add stays at a prompt iff some prompted field never receives a valid line |
| Manager.AddCommitsWhen | contact_manager.py:126-135 | add commits iff every field has a value and the candidate equals no stored contact or the override answer is `y`; it then appends exactly the candidate; a duplicate without `y` is declined |
| Manager.AddKeepsStoreDistinct | contact_manager.py:126-131 | without an override `y`, add never creates two equal contacts |
| Manager.GivenNameIsNotValidated | contact_manager.py:120 | an explicitly passed first name is stored even though the name validator refuses it |
| Manager.SelectedIndex | contact_manager.py:228-243 | the selected position is in range and its contact matches the query |
| Manager.SingleMatchIsSelected | contact_manager.py:325-326 | with a single match that contact is selected without any input |
| Manager.SelectedIsListedNumber | contact_manager.py:312-322 | with several matches a contact is selected iff some entry is a number from 1 to the number of results; the first such number n selects the position of the n-th match, the contact listed as n |
| Manager.ReplacementSpec | contact_manager.py:279-289 | each field of the replacement is decided by the first blank or valid line for that field |
| Manager.Modify | contact_manager.py:228-306 | the list keeps its length; "not found" iff nothing matches; nothing changes unless committed |
| Manager.ModifyTouchesOnlySelected | contact_manager.py:298-301 | a committed modification was confirmed, rewrites only the selected position, and each field is kept or newly validated |
| Manager.ModifyCommitsWhen | contact_manager.py:228-303 | modify commits iff a contact is selected, the user confirms, every field settles and the result is no duplicate or the override is `y`; it then overwrites exactly the selected position; when it declines and when input runs out is stated too |
| Manager.ModifyKeepsStoreDistinct | contact_manager.py:291-296 | without an override `y`, modify never creates two equal contacts |
| Manager.KeepingEveryFieldAsksToOverride | contact_manager.py:291-296 | keeping all four fields makes the contact its own duplicate, so the change commits iff the override is `y`, and the list is unchanged |
| Manager.RemoveAt | contact_manager.py:362 | removal drops exactly the element at the position, keeps the others in order, and takes one copy out of the multiset |
| Manager.Delete | contact_manager.py:350-368 | "not found" iff nothing matches; on commit the list shrinks by one; otherwise nothing changes |
| Manager.DeleteRemovesSelected | contact_manager.py:358-364 | a committed deletion was confirmed and removed exactly the selected matching contact, keeping the rest in order |
| Manager.DeleteCommitsWhen | contact_manager.py:350-368 | delete commits iff a contact is selected and the user confirms, and then removes exactly the selected position; a refusal is declined; input running out at the index prompt ends it |
| Manager.DeleteKeepsStoreDistinct | contact_manager.py:362 | deleting never creates two equal contacts |
| Manager.ContactManager.constructor | contact_manager.py:59-71 | loading a saved file gives its records; a missing or corrupt file gives an empty list |
| Manager.ContactManager.SaveContacts | contact_manager.py:73-78 | after saving, the file holds exactly the list |
| Manager.ContactManager.GetValidInput | contact_manager.py:80-89 | the loop returns what `FirstValid` specifies |
| Manager.ContactManager.ObtainField | contact_manager.py:120-124 | an argument is the passed value or the result of the prompt loop |
| Manager.ContactManager.SelectContactFromResults | contact_manager.py:308-326 | the loop returns what `Selection` specifies |
| Manager.ContactManager.GetNewValue | contact_manager.py:271-277 | the recursion returns what `NewValue` specifies |
| Manager.ContactManager.AddContact | contact_manager.py:120-135 | the outcome and new list are `Add` of the old list; the file is saved exactly when committed |
| Manager.ContactManager.ModifyContact | contact_manager.py:228-306 | the outcome and new list are `Modify` of the old list; the file is saved exactly when committed |
| Manager.ContactManager.DeleteContact | contact_manager.py:350-368 | the outcome and new list are `Delete` of the old list; the file is saved exactly when committed |

## Left out

- Reading and writing JSON (`load_contacts`, `save_contacts`): the file is a
  value, `Missing`, `Corrupt` or `Saved(records)`. Records that do not fit
  `Contact(**data)`, which raise `TypeError` in the source, are not modelled.
- Rendering: `print_in_color`, `tabulate` tables, `Contact.__str__`, the
  "No contacts available" message and the `display=True` branch of
  `search_contact`. Only the order `display_contacts` sorts into is modelled.
- `main()` and its menu loop.
- `input()` is a parameter (see above). Each prompt of an operation gets its
  own sequence of lines: the one stream the program reads is given already
  cut into the stretch each prompt consumes.
- `int()` parsing in the index prompt is abstracted as `Option<int>`. The
  model does not say which strings `int` accepts.
- Case folding, and the `\w` class of the email pattern, cover ASCII only.
  Python's `str.lower()` and `\w` on `str` are full Unicode. The `\s` class of
  the name pattern and `strip()` use Python's whitespace list.
- `if not contact: return` in modify and delete is unreachable: a `Contact`
  object is always truthy. It is not modelled.
- Manager.ContactManager.AddContact: a run-out of input at any field ends the
  operation with `InputEnded`. The source would block at the first field whose
  prompt never gets a valid line, and later fields would not be asked.
- Prompts.NewValue: `get_new_value` recurses once per rejected line. After
  about a thousand rejected lines for one field, CPython's recursion limit
  raises an uncaught `RecursionError`, and modify ends with the list and the
  file unchanged. The exact count depends on the interpreter's stack depth.
  The model allows any number of rejected lines; the same holds for
  `Manager.ContactManager.GetNewValue`.
