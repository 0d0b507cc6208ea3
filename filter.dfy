/** Order-preserving selection from a sequence, the shape shared by the search
    loop that appends each matching row to `results` and the list
    comprehension that drops the deleted case. */
module Filter {

  /** The elements of s that satisfy p, in their original order. */
  function Keep<T>(s: seq<T>, p: T -> bool): seq<T> {
    if s == [] then []
    else Keep(s[..|s| - 1], p) + (if p(s[|s| - 1]) then [s[|s| - 1]] else [])
  }

  /** The positions in s of the elements that satisfy p, in increasing order. */
  function KeptIndices<T>(s: seq<T>, p: T -> bool): seq<nat> {
    if s == [] then []
    else KeptIndices(s[..|s| - 1], p) + (if p(s[|s| - 1]) then [|s| - 1] else [])
  }

  /** One more element at the end is kept exactly when it satisfies p. */
  lemma KeepSnoc<T>(s: seq<T>, x: T, p: T -> bool)
    ensures Keep(s + [x], p) == Keep(s, p) + (if p(x) then [x] else [])
  {
    assert (s + [x])[..|s|] == s;
  }

  /** r is the subsequence of s at the strictly increasing positions idx. */
  ghost predicate PicksOut<T>(r: seq<T>, s: seq<T>, idx: seq<nat>) {
    |idx| == |r| &&
    (forall k :: 0 <= k < |r| ==> idx[k] < |s| && r[k] == s[idx[k]]) &&
    (forall k, l :: 0 <= k < l < |idx| ==> idx[k] < idx[l])
  }

  /** Keep picks out, in increasing order and each once, exactly the
      positions whose element satisfies p: the result is the ordered
      subsequence of s made of its p-elements. */
  lemma {:induction false} KeepSelects<T>(s: seq<T>, p: T -> bool)
    ensures PicksOut(Keep(s, p), s, KeptIndices(s, p))
    ensures forall i :: 0 <= i < |s| ==> (p(s[i]) <==> i in KeptIndices(s, p))
  {
    if s != [] {
      var t := s[..|s| - 1];
      KeepSelects(t, p);
      var idx := KeptIndices(s, p);
      assert forall i :: 0 <= i < |t| ==> t[i] == s[i];
      forall i | 0 <= i < |s|
        ensures p(s[i]) <==> i in idx
      {
        if i < |t| {
          assert i in KeptIndices(t, p) <==> i in idx;
        }
      }
    }
  }

  /** An element is kept exactly when it is in s and satisfies p. */
  lemma KeepMembers<T>(s: seq<T>, p: T -> bool, x: T)
    ensures x in Keep(s, p) <==> x in s && p(x)
  {
    KeepSelects(s, p);
    if x in s && p(x) {
      var i :| 0 <= i < |s| && s[i] == x;
      var k :| 0 <= k < |KeptIndices(s, p)| && KeptIndices(s, p)[k] == i;
      assert Keep(s, p)[k] == x;
    }
  }

  /** Two tests that agree on every element of s keep the same elements. */
  lemma {:induction false} KeepSameTest<T>(s: seq<T>, p: T -> bool, p': T -> bool)
    requires forall i :: 0 <= i < |s| ==> p(s[i]) == p'(s[i])
    ensures Keep(s, p) == Keep(s, p')
  {
    if s != [] {
      KeepSameTest(s[..|s| - 1], p, p');
    }
  }

  /** When every element satisfies p, nothing is dropped. */
  lemma {:induction false} KeepAll<T>(s: seq<T>, p: T -> bool)
    requires forall i :: 0 <= i < |s| ==> p(s[i])
    ensures Keep(s, p) == s
  {
    if s != [] {
      KeepAll(s[..|s| - 1], p);
    }
  }
}
