# User table collection — a Dafny model

This project models the in-memory user list behind the `UserTable` React
component of a small user-management screen. The component holds the list of
user records fetched at start-up and changes it locally. Its form submit
either edits records or appends a new one. Delete drops records by
identifier. A search box filters the rows by name, ignoring case, and it
announces "No such user found!" when a non-blank search matches nobody.

Every operation is a pure function from the current list (`seq<User>`) to the
next one. The component's `setUsers` call is the caller storing that result.
A record is `User(id, name, rest)`. The fields that no operation inspects
(username, e-mail, phone, website, company name, address) sit in `rest`.

Files:

- `text.dfy` (module `Text`): the JavaScript string built-ins the component
  uses, `toLowerCase` (`Lower`), `includes` (`Contains`) and `trim` (`Trim`).
- `seqs.dfy` (module `Seqs`): order-preserving selection, the shape of
  `Array.prototype.filter` (`Keep`), with `Count` and the subsequence
  relation.
- `user_table.dfy` (module `UserTable`): the records, add, edit, submit,
  delete, search, the no-match decision, and the lemmas relating them.
- `scenarios.dfy` (module `Scenarios`): concrete runs. They include the
  duplicate identifier produced by delete-then-add and an add/delete/search
  session.

Two behaviours of the code are stated plainly in the model:

- Add takes the new identifier from the list length (`length + 1`) and never
  checks for collisions. After a delete, this can repeat an identifier that
  is still in the list (`DeleteThenAddCollides`, `Scenarios.DeleteThenAddWitness`).
- Edit and delete act on every record that carries the identifier, not on
  one record. "Delete removes exactly one record" holds only when identifiers
  are unique (`DeleteUniqueRemovesOne`). With a duplicated identifier, both
  records are replaced or removed (`Scenarios.UpdateReplacesEveryDuplicate`,
  `Scenarios.DeleteRemovesEveryDuplicate`).

## Model

| member | source | states |
|---|---|---|
| Text.Lower | src/UserTable.jsx:85 | lower-casing keeps the length, maps each character on its own, and leaves no capital letter behind |
| Text.LowerIdempotent | src/UserTable.jsx:85 | lower-casing twice is the same as lower-casing once |
| Text.Contains | src/UserTable.jsx:85 | `includes` holds exactly when the needle occurs at some position of the haystack; the empty needle occurs in every string |
| Text.Trim | src/UserTable.jsx:88 | `trim` returns a slice of its input with only whitespace cut around it; the slice starts and ends with a non-whitespace character; the result is empty exactly when the input is all whitespace |
| Seqs.Keep | src/UserTable.jsx:94-96 | `filter` keeps exactly the elements that satisfy the predicate, with every occurrence, in their original order (a subsequence), as many as `Count` says; nothing rejected means the list comes back unchanged |
| Seqs.KeepIsUnique | src/UserTable.jsx:94-96 | any subsequence made only of satisfying elements, as long as their count, equals the `filter` result |
| UserTable.Add | src/UserTable.jsx:63-66 | the add branch grows the list by one, keeps every earlier record, and appends the submitted name and fields with identifier old length + 1 |
| UserTable.Update | src/UserTable.jsx:57-61 | the edit branch keeps the length; each position whose identifier equals the submitted one now holds the submitted record; all other positions are unchanged; no match means an identical list |
| UserTable.Submit | src/UserTable.jsx:56-69 | submit in edit mode keeps the length and the identifier column; in add mode it appends one record with identifier old length + 1 after the unchanged list |
| UserTable.Delete | src/UserTable.jsx:73 | delete leaves no record with the identifier, keeps every other record (each occurrence) in relative order, shrinks by the number of matches, and changes nothing when the identifier is absent |
| UserTable.Search | src/UserTable.jsx:94-96 | the rows shown are exactly the records whose lower-cased name contains the lower-cased search text, with every occurrence, as a subsequence of the list |
| UserTable.NoMatchNotice | src/UserTable.jsx:84-90 | the "No such user found" notice fires exactly when no record's name contains the search text ignoring case and the search text has a non-whitespace character |
| UserTable.UpdateKeepsIds | src/UserTable.jsx:58-60 | an edit leaves the identifier column unchanged |
| UserTable.UpdateIdempotent | src/UserTable.jsx:58-60 | submitting the same edit twice equals submitting it once |
| UserTable.UpdateInstallsData | src/UserTable.jsx:58-60 | the submitted record is in the edited list exactly when its identifier was in the list |
| UserTable.CountIdUnique | src/UserTable.jsx:73 | with unique identifiers, a present identifier is carried by exactly one record |
| UserTable.DeleteUniqueRemovesOne | src/UserTable.jsx:73 | with unique identifiers, deleting a present identifier shortens the list by exactly one |
| UserTable.DeleteIdempotent | src/UserTable.jsx:73 | deleting the same identifier twice equals deleting it once |
| UserTable.AddUniqueIff | src/UserTable.jsx:64-65 | from unique identifiers, add keeps them unique exactly when no record already carries length + 1 |
| UserTable.AddAfterLoadUnique | src/UserTable.jsx:64-65 | a list whose identifiers are 1..n by position stays collision-free under add |
| UserTable.DeleteThenAddCollides | src/UserTable.jsx:64-73 | from identifiers 1..n, deleting any identifier below n and then adding yields two records with identifier n |
| UserTable.SearchCaseInsensitive | src/UserTable.jsx:84-86 | two search texts with the same lower-case form show the same rows |
| UserTable.SearchLowerInvariant | src/UserTable.jsx:94-96 | searching for the lower-cased text shows the same rows as the text itself |
| UserTable.SearchEmptyShowsAll | src/UserTable.jsx:94-96 | an empty search box shows the whole list in its order |
| UserTable.SearchCharacterised | src/UserTable.jsx:94-96 | the search result is the only subsequence of matching records as long as the number of matching records |
| UserTable.BlankSearchIsSilent | src/UserTable.jsx:88-90 | whitespace-only search text never raises the no-match notice |
| Scenarios.DeleteThenAddWitness | src/UserTable.jsx:64-73 | from identifiers [1, 2, 3], deleting 2 then adding gives identifiers [1, 3, 3], which are not unique |
| Scenarios.DeleteRemovesEveryDuplicate | src/UserTable.jsx:73 | deleting an identifier carried by two records removes both |
| Scenarios.UpdateReplacesEveryDuplicate | src/UserTable.jsx:58-60 | an edit replaces both records that carry the submitted identifier |
| Scenarios.SearchIgnoresCase | src/UserTable.jsx:94-96 | "ANA" and "ana" both find "Ana Smith" |
| Scenarios.SpaceSearchMissesSilently | src/UserTable.jsx:84-90 | a one-space search finds none of "Ann", "Bob", "Cy", yet raises no notice |
| Scenarios.AddDeleteSearchSession | src/UserTable.jsx:56-96 | from identifiers 1..3, adding "Dana" gives four records with the new one as 4; deleting 2 leaves identifiers [1, 3, 4]; searching "dana" shows only the added record |

## Left out

- Loading (`fetch`, `useEffect`, JSON parsing, the error toast and the loading
  flag, src/UserTable.jsx:15-33): network I/O. Its only effect on the list is
  to replace it with the fetched array.
- Toast notifications, `navigate` to the detail page, and the modal and
  edit-mode flags (src/UserTable.jsx:35-54, 62, 66, 68, 75). These are UI side
  effects. The edit-mode flag enters the model only as the `isEditMode`
  argument of `Submit`.
- All JSX rendering, including row striping and address formatting
  (src/UserTable.jsx:98-187), and src/App.jsx, which only wires the router and
  the toast container.
- The form component `AddUserForm` is not part of this model. Identifiers are
  integers compared with `==`. A form that submitted the identifier as a
  string would never match under JavaScript's `===`, and that case is not
  modelled.
- Text.Lower: folds only the ASCII letters A–Z. JavaScript's `toLowerCase`
  also folds non-ASCII letters, and some of those change length.
- Text.Contains and Text.Trim: work on Unicode code points, not on UTF-16
  code units. For strings without surrogate pairs the two agree. `Trim`
  removes exactly the ECMAScript WhiteSpace and LineTerminator code points.
