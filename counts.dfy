/** The aggregate counts: how many stored rows share an email or a phone
    number, the count save_case stores, and the preview update_counts shows. */
module Counts {
  import opened Text
  import opened Cases

  /** How many elements of s have the given key: the `sum(1 for row in rows
      if ...)` of save_case, for any way of reading a key off an element. */
  function Count<T>(s: seq<T>, key: T -> string, k: string): (n: nat)
    ensures n <= |s|
  {
    if s == [] then 0
    else Count(s[..|s| - 1], key, k) + (if key(s[|s| - 1]) == k then 1 else 0)
  }

  /** The positions of the elements with that key. */
  function Positions<T>(s: seq<T>, key: T -> string, k: string): set<nat> {
    set i: nat | i < |s| && key(s[i]) == k
  }

  /** The count is the number of positions holding an element with that key. */
  lemma {:induction false} CountIsCardinality<T>(s: seq<T>, key: T -> string, k: string)
    ensures Count(s, key, k) == |Positions(s, key, k)|
  {
    if s != [] {
      var t := s[..|s| - 1];
      var n := |s| - 1;
      CountIsCardinality(t, key, k);
      var small, big := Positions(t, key, k), Positions(s, key, k);
      assert n !in small;
      if key(s[n]) == k {
        assert big == small + {n};
      } else {
        assert big == small;
      }
    }
  }

  /** An element appended at the end adds one to its own key's count only. */
  lemma CountSnoc<T>(s: seq<T>, x: T, key: T -> string, k: string)
    ensures Count(s + [x], key, k) == Count(s, key, k) + (if key(x) == k then 1 else 0)
  {
    assert (s + [x])[..|s|] == s;
  }

  /** Two sequences that agree position by position on whether they carry
      the key have the same count for it. */
  lemma {:induction false} CountSamePattern<T>(s: seq<T>, t: seq<T>, key: T -> string, k: string)
    requires |s| == |t|
    requires forall i :: 0 <= i < |s| ==> (key(s[i]) == k <==> key(t[i]) == k)
    ensures Count(s, key, k) == Count(t, key, k)
  {
    if s != [] {
      CountSamePattern(s[..|s| - 1], t[..|t| - 1], key, k);
    }
  }

  /** Reading the contact value of a row, as a function. */
  function KeyOf(c: Contact): Row -> string {
    r => ContactKey(r, c)
  }

  /** The number of stored rows counted under key for contact c. */
  function CountOf(rows: seq<Row>, c: Contact, key: string): nat {
    Count(rows, KeyOf(c), key)
  }

  /** The count save_case stores for the entered value: every stored row
      with that value, plus the record itself when it is new and the value
      is not empty. */
  function SaveCount(rows: seq<Row>, c: Contact, key: string, isNew: bool): nat {
    CountOf(rows, c, key) + (if isNew && key != "" then 1 else 0)
  }

  /** Scanning one more stored row adds one exactly when it carries the key. */
  lemma CountOfStep(rows: seq<Row>, i: nat, c: Contact, key: string)
    requires i < |rows|
    ensures CountOf(rows[..i + 1], c, key) ==
      CountOf(rows[..i], c, key) + (if ContactKey(rows[i], c) == key then 1 else 0)
  {
    assert rows[..i + 1] == rows[..i] + [rows[i]];
    CountSnoc(rows[..i], rows[i], KeyOf(c), key);
  }

  /** How the preview label renders a count: zero as an empty label. */
  function Shown(n: nat): string {
    if n == 0 then "" else NatToString(n)
  }

  /** The label is empty exactly for a zero count, and otherwise reads back
      as the count. */
  lemma ShownSpec(n: nat)
    ensures Shown(n) == "" <==> n == 0
    ensures n != 0 ==> ParseDecimal(Shown(n)) == n
  {
    if n != 0 {
      ParseNatToString(n);
    }
  }

  /** update_counts: scans the stored rows counting those that share the
      entered (non-empty) email or phone, adds the unsaved record itself for
      a new case, and renders each count for its label. */
  method PreviewCounts(rows: seq<Row>, emailInput: string, phoneInput: string, isNew: bool)
    returns (emailShown: string, phoneShown: string)
    ensures Lower(Trim(emailInput)) == "" ==> emailShown == ""
    ensures Lower(Trim(emailInput)) != "" ==>
      emailShown == Shown(SaveCount(rows, ByEmail, Lower(Trim(emailInput)), isNew))
    ensures Trim(phoneInput) == "" ==> phoneShown == ""
    ensures Trim(phoneInput) != "" ==>
      phoneShown == Shown(SaveCount(rows, ByPhone, Trim(phoneInput), isNew))
  {
    var email := Lower(Trim(emailInput));
    var phone := Trim(phoneInput);
    var emailCount, phoneCount := 0, 0;
    for i := 0 to |rows|
      invariant emailCount == if email == "" then 0 else CountOf(rows[..i], ByEmail, email)
      invariant phoneCount == if phone == "" then 0 else CountOf(rows[..i], ByPhone, phone)
    {
      CountOfStep(rows, i, ByEmail, email);
      CountOfStep(rows, i, ByPhone, phone);
      if email != "" && ContactKey(rows[i], ByEmail) == email {
        emailCount := emailCount + 1;
      }
      if phone != "" && ContactKey(rows[i], ByPhone) == phone {
        phoneCount := phoneCount + 1;
      }
    }
    assert rows[..|rows|] == rows;
    if isNew {
      if email != "" {
        emailCount := emailCount + 1;
      }
      if phone != "" {
        phoneCount := phoneCount + 1;
      }
    }
    emailShown := if emailCount != 0 then NatToString(emailCount) else "";
    phoneShown := if phoneCount != 0 then NatToString(phoneCount) else "";
  }
}
