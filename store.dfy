/** The case store: the rows of the CSV file in file order, and the two
    operations that rewrite it, save_case (recount, propagate, upsert) and
    delete_case (filter by case id), plus the find-first lookup used when a
    listed case is opened. */
module Store {
  import opened Text
  import opened Filter
  import opened Cases
  import opened Counts

  /** The position of the first row with the given case id, if any. */
  function FirstIndex(rows: seq<Row>, id: string): (k: Option<nat>)
    ensures k.None? <==> forall i :: 0 <= i < |rows| ==> rows[i].caseId != id
    ensures k.Some? ==>
              k.value < |rows| && rows[k.value].caseId == id &&
              forall i :: 0 <= i < k.value ==> rows[i].caseId != id
  {
    if rows == [] then None
    else if rows[0].caseId == id then Some(0)
    else match FirstIndex(rows[1..], id)
      case None => None
      case Some(k) => Some(k + 1)
  }

  /** The entered contact values of a save and the counts computed for them. */
  datatype Tally = Tally(emailKey: string, phoneKey: string, emailCount: nat, phoneCount: nat) {
    function Key(c: Contact): string {
      match c
      case ByEmail => emailKey
      case ByPhone => phoneKey
    }
    function CountFor(c: Contact): nat {
      match c
      case ByEmail => emailCount
      case ByPhone => phoneCount
    }
  }

  /** The counts save_case computes from the stored rows and the form. */
  function TallyFor(rows: seq<Row>, f: Form, isNew: bool): (t: Tally)
    ensures forall c :: t.Key(c) == InputKey(f, c)
    ensures forall c :: t.CountFor(c) == SaveCount(rows, c, InputKey(f, c), isNew)
  {
    Tally(InputKey(f, ByEmail), InputKey(f, ByPhone),
          SaveCount(rows, ByEmail, InputKey(f, ByEmail), isNew),
          SaveCount(rows, ByPhone, InputKey(f, ByPhone), isNew))
  }

  /** One stored row after the propagation step: a row that carries a
      non-empty entered value gets the fresh count for it; nothing else in
      the row changes. */
  function Touched(r: Row, t: Tally): (u: Row)
    ensures forall c :: ContactKey(u, c) == ContactKey(r, c)
    ensures u.(emailCount := r.emailCount, phoneCount := r.phoneCount) == r
  {
    var r1 := if t.emailKey != "" && ContactKey(r, ByEmail) == t.emailKey
              then r.(emailCount := NatToString(t.emailCount)) else r;
    if t.phoneKey != "" && ContactKey(r, ByPhone) == t.phoneKey
    then r1.(phoneCount := NatToString(t.phoneCount)) else r1
  }

  /** The count column of a touched row: refreshed exactly when the row
      carries the (non-empty) entered value. */
  lemma TouchedCount(r: Row, t: Tally, c: Contact)
    ensures StoredCount(Touched(r, t), c) ==
      if t.Key(c) != "" && ContactKey(r, c) == t.Key(c) then NatToString(t.CountFor(c)) else StoredCount(r, c)
  {
  }

  /** Every stored row after the propagation step. */
  function Propagated(rows: seq<Row>, t: Tally): (p: seq<Row>)
    ensures |p| == |rows|
  {
    seq(|rows|, i requires 0 <= i < |rows| => Touched(rows[i], t))
  }

  /** The `data` dict save_case builds from the form: stripped phone, email
      and comments, placeholders stored as empty, and the two counts. */
  function Record(f: Form, t: Tally): (r: Row)
    ensures r.caseId == f.caseId && r.timestamp == f.timestamp
    ensures forall c :: ContactKey(r, c) == InputKey(f, c)
    ensures forall c :: StoredCount(r, c) == NatToString(t.CountFor(c))
  {
    TrimIdempotent(f.email);
    TrimIdempotent(f.phone);
    Row(f.caseId, f.timestamp, Trim(f.phone), Trim(f.email),
        FromChoice(f.reaction), FromChoice(f.response),
        NatToString(t.emailCount), NatToString(t.phoneCount), Trim(f.comments))
  }

  /** The record replaces the first row with its case id, or is appended. */
  function Upsert(rows: seq<Row>, rec: Row): seq<Row> {
    match FirstIndex(rows, rec.caseId)
    case Some(j) => rows[j := rec]
    case None => rows + [rec]
  }

  /** The rows save_case writes back. */
  function Saved(rows: seq<Row>, f: Form, isNew: bool): seq<Row> {
    var t := TallyFor(rows, f, isNew);
    Upsert(Propagated(rows, t), Record(f, t))
  }

  function KeepTest(id: string): Row -> bool {
    (r: Row) => r.caseId != id
  }

  /** The rows delete_case writes back. */
  function Deleted(rows: seq<Row>, id: string): seq<Row> {
    Keep(rows, KeepTest(id))
  }

  /** Where save_case puts the record: at the first row with its case id,
      or at the end. */
  function SavedAt(rows: seq<Row>, id: string): (k: nat)
    ensures k <= |rows|
  {
    match FirstIndex(rows, id)
    case Some(j) => j
    case None => |rows|
  }

  /** Two stores with the same case ids position by position have the same
      first position for every id. */
  lemma {:induction false} FirstIndexSameIds(s: seq<Row>, u: seq<Row>, id: string)
    requires |s| == |u|
    requires forall i :: 0 <= i < |s| ==> s[i].caseId == u[i].caseId
    ensures FirstIndex(s, id) == FirstIndex(u, id)
  {
    if s != [] && s[0].caseId != id {
      FirstIndexSameIds(s[1..], u[1..], id);
    }
  }

  /** Propagation keeps every case id, so it keeps the first position of each. */
  lemma PropagatedIds(rows: seq<Row>, t: Tally, id: string)
    ensures FirstIndex(Propagated(rows, t), id) == FirstIndex(rows, id)
  {
    var p := Propagated(rows, t);
    forall i | 0 <= i < |rows|
      ensures p[i].caseId == rows[i].caseId
    {
      assert p[i] == Touched(rows[i], t);
    }
    FirstIndexSameIds(p, rows, id);
  }

  /** Propagation keeps every row's contact keys, so the number of rows
      under each key is unchanged. */
  lemma PropagatedCount(rows: seq<Row>, t: Tally, c: Contact, key: string)
    ensures CountOf(Propagated(rows, t), c, key) == CountOf(rows, c, key)
  {
    var p := Propagated(rows, t);
    forall i | 0 <= i < |rows|
      ensures ContactKey(p[i], c) == ContactKey(rows[i], c)
    {
      assert p[i] == Touched(rows[i], t);
    }
    CountSamePattern(p, rows, KeyOf(c), key);
  }

  /** The shape of a save: the record replaces the first row with its case
      id, keeping the length, or is appended, growing it by one; every other
      row stays at its position, changed only by the propagation step. */
  lemma SaveShape(rows: seq<Row>, f: Form, isNew: bool)
    ensures var s, k := Saved(rows, f, isNew), SavedAt(rows, f.caseId);
      && |s| == (if k < |rows| then |rows| else |rows| + 1)
      && s[k] == Record(f, TallyFor(rows, f, isNew))
      && (k < |rows| <==> exists i :: 0 <= i < |rows| && rows[i].caseId == f.caseId)
      && (k < |rows| ==> rows[k].caseId == f.caseId && forall i :: 0 <= i < k ==> rows[i].caseId != f.caseId)
      && forall i :: 0 <= i < |rows| && i != k ==> s[i] == Touched(rows[i], TallyFor(rows, f, isNew))
  {
    PropagatedIds(rows, TallyFor(rows, f, isNew), f.caseId);
  }

  /** What a save does to a stored row other than the one it replaces: a row
      carrying a non-empty entered value gets that value's fresh count, a
      count column whose value was not entered keeps its text, and nothing
      but the two count columns ever changes. */
  lemma SavePropagation(rows: seq<Row>, f: Form, isNew: bool, i: nat, c: Contact)
    requires i < |rows| && i != SavedAt(rows, f.caseId)
    ensures var r, key := Saved(rows, f, isNew)[i], InputKey(f, c);
      && r.(emailCount := rows[i].emailCount, phoneCount := rows[i].phoneCount) == rows[i]
      && ContactKey(r, c) == ContactKey(rows[i], c)
      && (key != "" && ContactKey(rows[i], c) == key ==>
            StoredCount(r, c) == NatToString(SaveCount(rows, c, key, isNew)))
      && (key == "" || ContactKey(rows[i], c) != key ==> StoredCount(r, c) == StoredCount(rows[i], c))
  {
    SaveShape(rows, f, isNew);
    TouchedCount(rows[i], TallyFor(rows, f, isNew), c);
  }

  /** A stored row that carries neither entered value comes back unchanged. */
  lemma SaveLeavesOthers(rows: seq<Row>, f: Form, isNew: bool, i: nat)
    requires i < |rows| && i != SavedAt(rows, f.caseId)
    requires forall c :: InputKey(f, c) == "" || ContactKey(rows[i], c) != InputKey(f, c)
    ensures Saved(rows, f, isNew)[i] == rows[i]
  {
    SavePropagation(rows, f, isNew, i, ByEmail);
    SavePropagation(rows, f, isNew, i, ByPhone);
  }

  /** The counts the saved record carries: the number of stored rows with
      the entered value, plus one for a new case with a non-empty value. */
  lemma SaveCountFormula(rows: seq<Row>, f: Form, isNew: bool, c: Contact)
    ensures var key := InputKey(f, c);
      StoredCount(Saved(rows, f, isNew)[SavedAt(rows, f.caseId)], c) ==
      NatToString(|Positions(rows, KeyOf(c), key)| + (if isNew && key != "" then 1 else 0))
  {
    SaveShape(rows, f, isNew);
    CountIsCardinality(rows, KeyOf(c), InputKey(f, c));
  }

  /** Delete keeps exactly the rows with another case id, unchanged and in
      their order, and deleting an absent id changes nothing. */
  lemma DeleteSpec(rows: seq<Row>, id: string)
    ensures PicksOut(Deleted(rows, id), rows, KeptIndices(rows, KeepTest(id)))
    ensures forall i :: 0 <= i < |rows| ==> (rows[i].caseId != id <==> i in KeptIndices(rows, KeepTest(id)))
    ensures forall r :: r in Deleted(rows, id) <==> r in rows && r.caseId != id
    ensures (forall i :: 0 <= i < |rows| ==> rows[i].caseId != id) ==> Deleted(rows, id) == rows
  {
    KeepSelects(rows, KeepTest(id));
    forall r
      ensures r in Deleted(rows, id) <==> r in rows && r.caseId != id
    {
      KeepMembers(rows, KeepTest(id), r);
    }
    if forall i :: 0 <= i < |rows| ==> rows[i].caseId != id {
      KeepAll(rows, KeepTest(id));
    }
  }

  /** The CSV file, as the sequence of its rows. */
  class CaseStore {
    var rows: seq<Row>

    /** No file yet reads as no rows. */
    constructor ()
      ensures rows == []
    {
      rows := [];
    }

    /** save_case for the form's values; isNew says the form was opened
        with the "+" button rather than on a stored case. */
    method Save(f: Form, isNew: bool)
      modifies this
      ensures rows == Saved(old(rows), f, isNew)
    {
      var email := Lower(Trim(f.email));
      var phone := Trim(f.phone);
      var emailCount := CountOf(rows, ByEmail, email);
      var phoneCount := CountOf(rows, ByPhone, phone);
      if isNew {
        if email != "" {
          emailCount := emailCount + 1;
        }
        if phone != "" {
          phoneCount := phoneCount + 1;
        }
      }
      var t := Tally(email, phone, emailCount, phoneCount);
      assert t == TallyFor(rows, f, isNew);
      PropagateCounts(t);
      var data := Record(f, t);
      Put(data);
    }

    /** The loop of save_case that writes the fresh counts onto every stored
        row carrying a non-empty entered value. */
    method PropagateCounts(t: Tally)
      modifies this
      ensures rows == Propagated(old(rows), t)
    {
      var i := 0;
      while i < |rows|
        invariant 0 <= i <= |rows| == |old(rows)|
        invariant forall k :: 0 <= k < i ==> rows[k] == Touched(old(rows)[k], t)
        invariant forall k :: i <= k < |rows| ==> rows[k] == old(rows)[k]
      {
        var row := rows[i];
        if t.emailKey != "" && ContactKey(row, ByEmail) == t.emailKey {
          row := row.(emailCount := NatToString(t.emailCount));
        }
        if t.phoneKey != "" && ContactKey(row, ByPhone) == t.phoneKey {
          row := row.(phoneCount := NatToString(t.phoneCount));
        }
        rows := rows[i := row];
        i := i + 1;
      }
    }

    /** The loop of save_case that overwrites the first row with the
        record's case id, or appends the record when there is none. */
    method Put(data: Row)
      modifies this
      ensures rows == Upsert(old(rows), data)
    {
      var updated := false;
      var i := 0;
      while i < |rows|
        invariant 0 <= i <= |rows| && rows == old(rows)
        invariant forall k :: 0 <= k < i ==> rows[k].caseId != data.caseId
      {
        if rows[i].caseId == data.caseId {
          rows := rows[i := data];
          updated := true;
          break;
        }
        i := i + 1;
      }
      if !updated {
        rows := rows + [data];
      }
    }

    /** delete_case: every row with the id is dropped. */
    method Delete(id: string)
      modifies this
      ensures rows == Deleted(old(rows), id)
    {
      rows := Deleted(rows, id);
    }
  }

  /** The lookup of on_row_double_click: the first row with the id, if any. */
  method FindCase(rows: seq<Row>, id: string) returns (record: Option<Row>)
    ensures record.None? <==> forall i :: 0 <= i < |rows| ==> rows[i].caseId != id
    ensures record.Some? ==>
              exists i :: 0 <= i < |rows| && record.value == rows[i] &&
                          rows[i].caseId == id && forall k :: 0 <= k < i ==> rows[k].caseId != id
  {
    record := None;
    for i := 0 to |rows|
      invariant forall k :: 0 <= k < i ==> rows[k].caseId != id
    {
      if rows[i].caseId == id {
        record := Some(rows[i]);
        return;
      }
    }
  }
}
