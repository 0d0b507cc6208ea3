/** The aggregate-count invariant of the store, when save_case keeps it, and
    the behaviours of the code that break it. */
module Invariants {
  import opened Text
  import opened Filter
  import opened Cases
  import opened Counts
  import opened Query
  import opened Store

  /** Every row with a non-empty email (phone) carries, as its email_count
      (phone_count), the number of rows in the store with that value. */
  ghost predicate Consistent(rows: seq<Row>) {
    forall i, c :: 0 <= i < |rows| && ContactKey(rows[i], c) != "" ==>
      StoredCount(rows[i], c) == NatToString(CountOf(rows, c, ContactKey(rows[i], c)))
  }

  /** The saves for which the count rule is exact: a new case whose id is not
      in the store, or an edit of a stored case that keeps its email and
      phone (as normalised for counting). */
  predicate Admissible(rows: seq<Row>, f: Form, isNew: bool) {
    match FirstIndex(rows, f.caseId)
    case None => isNew
    case Some(j) => !isNew && forall c :: ContactKey(rows[j], c) == InputKey(f, c)
  }

  /** After an admissible save, every count in the store changes only by the
      new case itself. */
  lemma SavedCountOf(rows: seq<Row>, f: Form, isNew: bool, c: Contact, key: string)
    requires Admissible(rows, f, isNew)
    ensures CountOf(Saved(rows, f, isNew), c, key) ==
      CountOf(rows, c, key) + (if isNew && key == InputKey(f, c) then 1 else 0)
  {
    var t := TallyFor(rows, f, isNew);
    var p := Propagated(rows, t);
    var rec := Record(f, t);
    PropagatedIds(rows, t, f.caseId);
    PropagatedCount(rows, t, c, key);
    match FirstIndex(rows, f.caseId)
    case None =>
      CountSnoc(p, rec, KeyOf(c), key);
    case Some(j) =>
      assert p[j] == Touched(rows[j], t);
      CountSamePattern(p[j := rec], p, KeyOf(c), key);
  }

  /** An admissible save leaves every row that carries the entered
      non-empty value, including the record itself, with the true count of
      that value: stale counts left by earlier deletions are repaired. */
  lemma SaveRepairsGroup(rows: seq<Row>, f: Form, isNew: bool, i: nat, c: Contact)
    requires Admissible(rows, f, isNew)
    requires i < |Saved(rows, f, isNew)|
    requires InputKey(f, c) != "" && ContactKey(Saved(rows, f, isNew)[i], c) == InputKey(f, c)
    ensures StoredCount(Saved(rows, f, isNew)[i], c) ==
      NatToString(CountOf(Saved(rows, f, isNew), c, InputKey(f, c)))
  {
    var key := InputKey(f, c);
    SaveShape(rows, f, isNew);
    SavedCountOf(rows, f, isNew, c, key);
    if i != SavedAt(rows, f.caseId) {
      SavePropagation(rows, f, isNew, i, c);
    }
  }

  /** An admissible save keeps a consistent store consistent. */
  lemma SaveKeepsConsistent(rows: seq<Row>, f: Form, isNew: bool)
    requires Consistent(rows)
    requires Admissible(rows, f, isNew)
    ensures Consistent(Saved(rows, f, isNew))
  {
    var s := Saved(rows, f, isNew);
    forall i, c | 0 <= i < |s| && ContactKey(s[i], c) != ""
      ensures StoredCount(s[i], c) == NatToString(CountOf(s, c, ContactKey(s[i], c)))
    {
      var key := ContactKey(s[i], c);
      if key == InputKey(f, c) {
        SaveRepairsGroup(rows, f, isNew, i, c);
      } else {
        SaveShape(rows, f, isNew);
        assert i != SavedAt(rows, f.caseId);
        SavePropagation(rows, f, isNew, i, c);
        SavedCountOf(rows, f, isNew, c, key);
      }
    }
  }

  /** An empty entered value is counted too: the record stores the number
      of stored rows whose value is empty, never an empty count. */
  lemma EmptyValueIsCounted(rows: seq<Row>, f: Form, isNew: bool, c: Contact)
    requires InputKey(f, c) == ""
    ensures StoredCount(Saved(rows, f, isNew)[SavedAt(rows, f.caseId)], c) ==
      NatToString(CountOf(rows, c, ""))
    ensures StoredCount(Saved(rows, f, isNew)[SavedAt(rows, f.caseId)], c) != ""
  {
    SaveShape(rows, f, isNew);
  }

  /** A saved case is found again by searching for its email as entered. */
  lemma SavedCaseIsFound(rows: seq<Row>, f: Form, isNew: bool)
    requires Normalize(f.email) != "" && Supported(f.email)
    ensures Record(f, TallyFor(rows, f, isNew)) in Hits(Saved(rows, f, isNew), Normalize(f.email))
  {
    var s := Saved(rows, f, isNew);
    var rec := Record(f, TallyFor(rows, f, isNew));
    var q := Normalize(f.email);
    SaveShape(rows, f, isNew);
    assert rec in s;
    TrimIdempotent(f.email);
    assert Lower(rec.email) == q;
    if '*' in q {
      Glob.GlobSelf(q);
    } else {
      ContainsSelf(q);
    }
    assert RowMatches(q, rec);
    KeepMembers(s, MatchTest(q), rec);
  }

  /** A new case with an email and nothing else filled in. */
  function NewForm(id: string, email: string): Form {
    Form(id, "", "", email, Placeholder, Placeholder, "")
  }

  /** A value with no space and no upper-case letter is its own key. */
  lemma PlainKey(s: string)
    requires forall i :: 0 <= i < |s| ==> !IsSpace(s[i]) && !('A' <= s[i] <= 'Z')
    ensures Trim(s) == s && Lower(Trim(s)) == s
  {
    assert TrimLeft(s) == s;
    assert TrimRight(s) == s;
  }

  /** The email shared by the cases of the scenarios below, and the
      email the edit scenario moves to. */
  const MailA: string := "a@x.com"
  const MailB: string := "b@x.com"

  lemma PlainMails()
    ensures Trim(MailA) == MailA && Lower(Trim(MailA)) == MailA
    ensures Trim(MailB) == MailB && Lower(Trim(MailB)) == MailB
    ensures Trim("") == "" && Lower("") == ""
  {
    PlainKey(MailA);
    PlainKey(MailB);
  }

  /** Saving case "a" with MailA into the empty store. */
  lemma FirstSave()
    ensures Saved([], NewForm("a", MailA), true) == [Row("a", "", "", MailA, "", "", "1", "0", "")]
  {
    var f := NewForm("a", MailA);
    PlainMails();
    assert InputKey(f, ByEmail) == MailA && InputKey(f, ByPhone) == "";
    var t := TallyFor([], f, true);
    assert t == Tally(MailA, "", 1, 0);
    assert NatToString(1) == "1" && NatToString(0) == "0";
  }

  /** Counting in the one-row store of FirstSave. */
  lemma OneRowCounts(r: Row, c: Contact, key: string)
    ensures CountOf([r], c, key) == if ContactKey(r, c) == key then 1 else 0
  {
    CountSnoc([], r, KeyOf(c), key);
    assert [] + [r] == [r];
  }

  /** Saving a second case "b" with the same email: the first row's count is
      brought up to 2, and the empty phone is counted as shared. */
  lemma SecondSave()
    ensures Saved([Row("a", "", "", MailA, "", "", "1", "0", "")], NewForm("b", MailA), true) ==
      [Row("a", "", "", MailA, "", "", "2", "0", ""), Row("b", "", "", MailA, "", "", "2", "1", "")]
  {
    var r := Row("a", "", "", MailA, "", "", "1", "0", "");
    var f := NewForm("b", MailA);
    PlainMails();
    assert InputKey(f, ByEmail) == MailA && InputKey(f, ByPhone) == "";
    assert ContactKey(r, ByEmail) == MailA && ContactKey(r, ByPhone) == "";
    OneRowCounts(r, ByEmail, MailA);
    OneRowCounts(r, ByPhone, "");
    var t := TallyFor([r], f, true);
    assert t == Tally(MailA, "", 2, 1);
    assert NatToString(2) == "2" && NatToString(1) == "1";
    assert Touched(r, t) == Row("a", "", "", MailA, "", "", "2", "0", "");
    assert Propagated([r], t) == [Touched(r, t)];
  }

  /** Deleting "a" from the two-row store leaves the row of "b" alone. */
  lemma DeleteFirst(a: Row, b: Row)
    requires a.caseId == "a" && b.caseId != "a"
    ensures Deleted([a, b], "a") == [b]
  {
    KeepSnoc([], a, KeepTest("a"));
    KeepSnoc([a], b, KeepTest("a"));
    assert [] + [a] == [a] && [a] + [b] == [a, b];
  }

  /** The two rows of the store after SecondSave. */
  const RowA: Row := Row("a", "", "", MailA, "", "", "2", "0", "")
  const RowB: Row := Row("b", "", "", MailA, "", "", "2", "1", "")

  /** Two saves of new cases with one email, from the empty store: the store
      is [RowA, RowB], and it is consistent. */
  lemma TwoCases()
    ensures Saved(Saved([], NewForm("a", MailA), true), NewForm("b", MailA), true) == [RowA, RowB]
    ensures Consistent([RowA, RowB])
  {
    FirstSave();
    SecondSave();
    var s1 := Saved([], NewForm("a", MailA), true);
    assert Consistent([]);
    SaveKeepsConsistent([], NewForm("a", MailA), true);
    assert FirstIndex(s1, "b") == None;
    SaveKeepsConsistent(s1, NewForm("b", MailA), true);
  }

  /** The store holding RowB alone is not consistent: RowB says "2" while
      it is the only row with its email. */
  lemma RowBAloneIsStale()
    ensures CountOf([RowB], ByEmail, MailA) == 1
    ensures !Consistent([RowB])
  {
    PlainMails();
    OneRowCounts(RowB, ByEmail, MailA);
    assert ContactKey(RowB, ByEmail) == MailA;
    assert NatToString(1) == "1";
    assert [RowB][0] == RowB;
  }

  /** Two cases with one email, then the first deleted: the second keeps
      the stale count "2" although it is now the only one with that email. */
  lemma DeleteLeavesStaleCount()
    ensures var s2 := Saved(Saved([], NewForm("a", MailA), true), NewForm("b", MailA), true);
      && Consistent(s2)
      && |s2| == 2 && s2[0].emailCount == "2" && s2[1].emailCount == "2"
      && Deleted(s2, "a") == [s2[1]]
      && CountOf(Deleted(s2, "a"), ByEmail, MailA) == 1
      && !Consistent(Deleted(s2, "a"))
  {
    TwoCases();
    DeleteFirst(RowA, RowB);
    RowBAloneIsStale();
  }

  /** An edit that changes the email of the only case: the old row is not
      counted under the new email, so the record stores "0" for a value it
      carries itself. */
  lemma EditOfEmailUndercounts()
    ensures var s1 := Saved([], NewForm("a", MailA), true);
      var s2 := Saved(s1, NewForm("a", MailB), false);
      && Consistent(s1)
      && |s2| == 1 && s2[0].emailCount == "0"
      && CountOf(s2, ByEmail, MailB) == 1
      && !Consistent(s2)
  {
    FirstSave();
    var r := Row("a", "", "", MailA, "", "", "1", "0", "");
    SaveKeepsConsistent([], NewForm("a", MailA), true);
    var f := NewForm("a", MailB);
    PlainMails();
    assert InputKey(f, ByEmail) == MailB && InputKey(f, ByPhone) == "";
    assert ContactKey(r, ByEmail) == MailA && ContactKey(r, ByPhone) == "";
    OneRowCounts(r, ByEmail, MailB);
    OneRowCounts(r, ByPhone, "");
    var t := TallyFor([r], f, false);
    assert t == Tally(MailB, "", 0, 1);
    assert Propagated([r], t) == [r];
    assert NatToString(0) == "0" && NatToString(1) == "1";
    var rec := Row("a", "", "", MailB, "", "", "0", "1", "");
    assert Record(f, t) == rec;
    assert FirstIndex([r], "a") == Some(0);
    assert Saved([r], f, false) == [rec];
    OneRowCounts(rec, ByEmail, MailB);
    assert ContactKey(rec, ByEmail) == MailB;
  }
}
