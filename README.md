# Case logger record logic, in Dafny

This project models the record logic of the Tk case logger (`src/main.py`). The
store is the CSV file of case rows. Each row has nine text columns: case id,
timestamp, phone number, email, main reaction, main response, email count,
phone count and comments. Here the store is a `seq<Row>` in file order.

The model covers:

- **save_case**: the aggregate-count upsert. It counts the stored rows that
  share the entered email (stripped, lower-cased) and phone (stripped,
  case-sensitive), and adds one for a new case with a non-empty value. It writes the fresh count onto
  every stored row carrying a non-empty entered value. Then it overwrites the
  first row with the case id, or appends the record. `Store.CaseStore.Save`
  does this as two loops, `PropagateCounts` and `Put`, over the `rows` field.
  It is proved equal to the function `Store.Saved`.
- **delete_case**: drops every row with the case id (`Store.Deleted`).
- **perform_search**: the matching part. The query is stripped and
  lower-cased. A query containing `*` is matched with fnmatch against the
  whole lower-cased case id, phone number or email (`Glob.GlobMatch`). Any
  other query is a substring test. Matching rows come back in store order.
- **update_counts**: the preview. Empty values count 0, a new case adds
  itself, and a zero count is shown as an empty label.
- **The form helpers**: the 100-character limit `max100` and the
  "Select an option" placeholder of the two drop-downs.
- **on_row_double_click**: the find-first lookup.

The module `Invariants` states the consistency invariant: every row with a
non-empty email (phone) carries the number of rows sharing that value. It
proves that save_case keeps this invariant for the saves where its count
rule is exact: a new case whose id is not yet in the store, or an edit that
keeps the email and phone.
It also proves with concrete stores how the code as written breaks the
invariant.

Three behaviours of save_case and delete_case are easy to miss:

- **An empty email or phone is counted.** The count is the number of stored
  rows whose value is also empty, and it is stored as `str(count)`, e.g. `"0"`.
  It is not left blank. See `Invariants.EmptyValueIsCounted` and
  `Invariants.SecondSave`.
- **delete_case repairs nothing.** The surviving rows keep their counts until
  a later save touches their value.
  See `Invariants.DeleteLeavesStaleCount` and `Invariants.SaveRepairsGroup`.
- **An edit that changes the email or phone undercounts.** The old row is not
  counted under the new value, so the record stores one less than the true
  count. See `Invariants.EditOfEmailUndercounts`.

## Model

| member | source | states |
|---|---|---|
| Text.Trim | src/main.py:293-294 | str.strip() with no argument: drops Python's whitespace at both ends; its meaning is stated by TrimIsCore and TrimIdempotent |
| Text.Lower | src/main.py:89 | str.lower() on ASCII letters; its meaning is stated by LowerSpec |
| Text.NatToString | src/main.py:319-320 | str(n): a non-empty string of decimal digits, with a leading `0` only for zero, one digit exactly below ten |
| Text.Contains | src/main.py:106-108 | Python's `q in s`; its meaning is stated by ContainsIff |
| Text.TrimIsCore | src/main.py:293-294 | strip() returns a slice of the input with no whitespace at either end, and only whitespace lies outside it |
| Text.TrimIdempotent | src/main.py:313-316 | stripping a stripped value changes nothing, so the stored email and phone are counted under the entered key |
| Text.LowerSpec | src/main.py:89 | lower() keeps the length, turns each capital letter into the small letter at the same place of the alphabet table, keeps every other character, and is idempotent |
| Text.LowerSameIff | src/main.py:293-301 | two strings lower-case alike iff they have one length and differ at most in the case of their letters |
| Text.NormalizedAlike | src/main.py:293-301 | strip() then lower() gives one key for two entries that differ only in case |
| Text.LowerKeepsChar | src/main.py:100 | a `*` (any character that is not an ASCII letter) is in the lower-cased query exactly when it is in the stripped query |
| Text.ParseNatToString | src/main.py:319-320 | the str(count) written to the CSV reads back as the count |
| Text.NatToStringInjective | src/main.py:319-320 | distinct counts are written as distinct strings |
| Text.ContainsIff | src/main.py:105-108 | the `q in field` test holds exactly when q occurs in the field at some position |
| Glob.GlobMatch | src/main.py:100-104 | fnmatch of a pattern against the whole name, `*` for any run and `?` for one character; its meaning is stated by the Glob lemmas below |
| Glob.GlobLiteral | src/main.py:100-104 | a pattern without `*`, `?` or `[` matches exactly itself |
| Glob.GlobSelf | src/main.py:100-104 | every pattern matches its own text |
| Glob.GlobFixedLength | src/main.py:100-104 | a pattern without `*` only matches names of its own length |
| Glob.GlobNoStar | src/main.py:100-104 | without `*`, a name matches iff it has the pattern's length and agrees with it at every non-`?` position |
| Glob.GlobStarAll | src/main.py:100-104 | a lone `*` matches every name |
| Glob.GlobLeadingStar | src/main.py:100-104 | `*r` matches a name iff r matches some suffix of it |
| Glob.GlobLiteralPrefix | src/main.py:100-104 | a literal prefix of the pattern must be a prefix of the name, and the rest must match the rest |
| Glob.GlobSubstring | src/main.py:100-108 | for a q without `*`, `?` or `[`, the pattern `*q*` matches exactly the names containing q |
| Cases.AcceptEdit | src/main.py:14-15 | an edit is kept iff the new text has at most 100 characters, otherwise the entry keeps its text |
| Cases.TypeAll | src/main.py:14-15 | keystrokes never leave more than 100 characters in an entry that starts within the limit |
| Cases.Max100 | src/main.py:14-15 | max100 itself: at most 100 characters |
| Cases.ContactKey | src/main.py:300-301 | the key a stored row is counted under: its email stripped and lower-cased, its phone number stripped |
| Cases.InputKey | src/main.py:293-294 | the key of the entered email (stripped, lower-cased) and phone (stripped) |
| Cases.EmailKeyIgnoresCase | src/main.py:293-301 | two emails that differ only in case are counted under one key |
| Cases.ToChoice | src/main.py:257-260 | loading a drop-down: an empty stored value shows "Select an option" |
| Cases.FromChoice | src/main.py:317-318 | saving a drop-down: "Select an option" is stored as empty |
| Cases.StoredChoiceRoundTrip | src/main.py:257-260 | loading a stored choice and saving it again gives the stored value back, except "Select an option", which becomes empty |
| Cases.ShownChoiceRoundTrip | src/main.py:317-318 | saving a shown choice and loading it again gives the shown value back, except an empty one, which comes back as the placeholder |
| Cases.BlankForm | src/main.py:239-247 | a new case gets the given id and time, empty email and phone keys, and both drop-downs save as empty |
| Cases.FormOf | src/main.py:252-264 | a stored case opened for editing keeps its id and its email and phone keys, and its choices save back unchanged |
| Counts.SaveCount | src/main.py:300-306 | the count save_case computes: rows with the key, plus one for a new case with a non-empty key; stated against positions by Store.SaveCountFormula |
| Counts.CountIsCardinality | src/main.py:300-301 | the count is the number of positions whose row has the key |
| Counts.ShownSpec | src/main.py:288-289 | a count label is empty iff the count is zero, and otherwise reads back as the count |
| Counts.PreviewCounts | src/main.py:268-289 | the preview shows an empty label for an empty value, and otherwise the stored-row count plus one for a new case, rendered by Shown |
| Query.Normalize | src/main.py:89 | the query as matched: stripped, then lower-cased |
| Query.MatchIgnoresCase | src/main.py:89-108 | rows whose searched fields differ only in case match the same queries, and queries that differ only in case normalise alike |
| Query.RowMatches | src/main.py:100-108 | a row matches when its lower-cased case id, phone number or email does, by fnmatch for a query with `*`, by substring otherwise |
| Query.Hits | src/main.py:94-109 | the matching rows in store order; stated by HitsInStoreOrder |
| Query.Search | src/main.py:88-109 | a blank query is refused; otherwise the results are the matching rows of the store, in order |
| Query.SubstringSearch | src/main.py:105-109 | without `*`, a row matches iff the query is a substring of its lower-cased case id, phone number or email |
| Query.HitsInStoreOrder | src/main.py:94-109 | the results are the subsequence of the store at the matching positions, each once, in store order |
| Query.StarWrappedSearch | src/main.py:100-109 | for a query q without `*`, `?` or `[`, searching `*q*` returns the same rows as searching q |
| Store.FirstIndex | src/main.py:323-327 | the first position holding the case id, or none when no row holds it |
| Store.Touched | src/main.py:307-311 | propagation changes only the two count columns of a row |
| Store.PropagatedIds | src/main.py:307-311 | propagation keeps the first position of every case id |
| Store.PropagatedCount | src/main.py:307-311 | propagation keeps every row's contact key, so the number of rows per key is unchanged |
| Store.Record | src/main.py:312-322 | the record keeps the form's id and time, is counted under the entered keys, and stores str of the fresh counts |
| Store.Propagated | src/main.py:307-311 | every stored row after the propagation loop; stated by SavePropagation and PropagatedCount |
| Store.Upsert | src/main.py:323-330 | the record replaces the first row with its case id or is appended; stated by SaveShape |
| Store.Saved | src/main.py:291-334 | the rows save_case writes: propagate the fresh counts, then upsert the record; stated by SaveShape, SavePropagation and SaveCountFormula |
| Store.Deleted | src/main.py:345 | the rows delete_case writes; stated by DeleteSpec |
| Store.SaveShape | src/main.py:323-330 | the record replaces the first row with its id, keeping the length, or is appended, growing it by one; other rows keep their positions |
| Store.SavePropagation | src/main.py:307-311 | after a save, a stored row with a non-empty entered value carries that value's fresh count; other count columns and all other fields are unchanged |
| Store.SaveLeavesOthers | src/main.py:307-311 | a stored row carrying neither entered value comes back unchanged |
| Store.SaveCountFormula | src/main.py:293-306 | the record's count is the number of stored rows with the entered key, plus one for a new case with a non-empty value |
| Store.DeleteSpec | src/main.py:338-349 | delete keeps exactly the rows with another id, unchanged and in order; deleting an absent id changes nothing |
| Store.CaseStore.constructor | src/main.py:296-299 | a missing file reads as no rows |
| Store.CaseStore.Save | src/main.py:291-334 | the new rows are Saved of the old rows and the form |
| Store.CaseStore.PropagateCounts | src/main.py:307-311 | the loop leaves every stored row touched by the tally |
| Store.CaseStore.Put | src/main.py:323-330 | the loop overwrites the first row with the record's id, or appends the record |
| Store.CaseStore.Delete | src/main.py:338-349 | the new rows are the old rows without the id |
| Store.FindCase | src/main.py:397-400 | returns none iff no row holds the id, and otherwise the first row that does |
| Invariants.SavedCountOf | src/main.py:300-330 | an admissible save changes each count only by the new case itself |
| Invariants.SaveRepairsGroup | src/main.py:307-311 | after an admissible save, every row with the entered non-empty value carries the true count, even if it was stale before |
| Invariants.SaveKeepsConsistent | src/main.py:291-334 | an admissible save keeps a consistent store consistent |
| Invariants.EmptyValueIsCounted | src/main.py:300-301 | an empty entered value gets the number of stored rows with an empty value, never an empty count |
| Invariants.SavedCaseIsFound | src/main.py:88-109 | a saved case is found again by searching for its email, when that email is a query the search accepts (no `[` beside a `*`) |
| Invariants.FirstSave | src/main.py:291-334 | saving "a" with a@x.com into an empty store gives one row with email count "1" and phone count "0" |
| Invariants.SecondSave | src/main.py:300-311 | saving "b" with the same email raises both rows to "2", and the empty phone is counted as shared ("1") |
| Invariants.TwoCases | src/main.py:291-334 | the two saves of FirstSave and SecondSave give the rows RowA and RowB, and that store is consistent |
| Invariants.RowBAloneIsStale | src/main.py:345 | the store holding only RowB has one row with its email while RowB says "2", so it is not consistent |
| Invariants.DeleteLeavesStaleCount | src/main.py:345 | after deleting "a", "b" keeps the count "2" while one row has the email, so the store is no longer consistent |
| Invariants.EditOfEmailUndercounts | src/main.py:300-301 | editing the only case to a new email stores "0" although the case itself has that email |

## Left out

- src/main_using_flask.py is not part of this model. Its routes only call the database library.
- Tk widgets, the message boxes, frame navigation, the Treeview and the routing on zero, one or many results are UI and are not modelled.
- Reading and writing the CSV file (`open`, `csv.DictReader`, `csv.DictWriter`, `os.path.exists`) is not modelled. Each operation takes the rows as they were read and gives the rows it writes. A missing file is the empty sequence. Missing columns of a CSV row (`row.get(..., "")`) are not modelled: every `Row` has all nine fields.
- The uuid4 case id and the clock's timestamp are parameters of `Cases.BlankForm`.
- Query.Search: fnmatch bracket classes (`[seq]`, `[!seq]`) are not modelled. A query containing `*` must not contain `[`. `os.path.normcase` is the identity, as on POSIX.
- Text.LowerSpec: only ASCII letters are lower-cased, while Python's str.lower() folds all of Unicode and can change the length of a string.
- Text.LowerSameIff: case is ignored for the 26 ASCII letters only; Python would also identify, for example, 'Ä' and 'ä'. The same holds for Text.NormalizedAlike, Cases.EmailKeyIgnoresCase and Query.MatchIgnoresCase.
- Text.LowerKeepsChar: holds for the ASCII-only Lower; under Python's full folding some non-ASCII characters that are not ASCII letters also change (it is used only for `*` and `[`, which do not).
- Store.FindCase: Tk may turn a Treeview value that looks like a number into an int, so the lookup would then find nothing. This is not modelled: the id is compared as text.
- load_data and browse_all only read and display the store, and they are not modelled.
- Cases.TypeAll: the comments box has no 100-character limit in the source, and that box is not modelled.
