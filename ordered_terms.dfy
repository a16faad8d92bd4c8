/**
 * The storage both revisions share: the entries of a `TreeSet<Term>` ordered by
 * key, or of a `TreeMap<String,String>`, as a sequence in ascending key order.
 * `ToMap` is the abstract dictionary it stands for.
 */
module OrderedTerms {
  import opened JavaString
  import opened Terms

  /** Keys strictly ascending in the order of `String.compareTo`; hence no key twice. */
  predicate Sorted(s: seq<Term>) {
    forall i, j :: 0 <= i < j < |s| ==> Less(s[i].term, s[j].term)
  }

  /** `contains` of the tree: some entry compares equal, i.e. has the same key. */
  predicate HasKey(s: seq<Term>, key: string) {
    exists i :: 0 <= i < |s| && s[i].term == key
  }

  /** The abstract dictionary; the first entry with a key gives its explanation. */
  ghost function ToMap(s: seq<Term>): map<string, string> {
    if s == [] then map[] else ToMap(s[1..])[s[0].term := s[0].explanation]
  }

  /** `TreeSet.add` of a new key / `TreeMap.put`: insert in key order, or replace the entry with that key. */
  function Put(s: seq<Term>, t: Term): (r: seq<Term>)
    ensures t in r
    ensures |s| <= |r| <= |s| + 1
  {
    if s == [] || Less(t.term, s[0].term) then [t] + s
    else if t.term == s[0].term then [t] + s[1..]
    else [s[0]] + Put(s[1..], t)
  }

  /** `TreeSet.remove` / `TreeMap.remove`: drop the entry with that key. */
  function Delete(s: seq<Term>, key: string): (r: seq<Term>)
    ensures |r| <= |s| <= |r| + 1
    ensures !HasKey(s, key) ==> r == s
  {
    if s == [] then []
    else if s[0].term == key then s[1..]
    else [s[0]] + Delete(s[1..], key)
  }

  /** Every key of `s` sorts after `key`. */
  predicate Above(key: string, s: seq<Term>) {
    forall i :: 0 <= i < |s| ==> Less(key, s[i].term)
  }

  lemma {:induction false} ToMapHasKey(s: seq<Term>, k: string)
    ensures k in ToMap(s) <==> HasKey(s, k)
  {
    if s != [] {
      ToMapHasKey(s[1..], k);
      if HasKey(s[1..], k) {
        var i :| 0 <= i < |s| - 1 && s[1..][i].term == k;
        assert s[i + 1].term == k;
      }
      if HasKey(s, k) && s[0].term != k {
        var i :| 0 <= i < |s| && s[i].term == k;
        assert s[1..][i - 1].term == k;
      }
    }
  }

  /** The first entry with a key is what the dictionary maps that key to. */
  lemma {:induction false} ToMapFirst(s: seq<Term>, i: nat)
    requires i < |s|
    requires forall j :: 0 <= j < i ==> s[j].term != s[i].term
    ensures s[i].term in ToMap(s) && ToMap(s)[s[i].term] == s[i].explanation
  {
    if i > 0 {
      ToMapFirst(s[1..], i - 1);
    }
  }

  /** In a sorted sequence every entry is what the dictionary maps its key to. */
  lemma ToMapAt(s: seq<Term>, i: nat)
    requires Sorted(s) && i < |s|
    ensures s[i].term in ToMap(s) && ToMap(s)[s[i].term] == s[i].explanation
  {
    forall j | 0 <= j < i
      ensures s[j].term != s[i].term
    {
      LessIrreflexive(s[i].term);
    }
    ToMapFirst(s, i);
  }

  /** In a sorted sequence the first key occurs nowhere else. */
  lemma HeadNotInTail(s: seq<Term>)
    requires Sorted(s) && s != []
    ensures s[0].term !in ToMap(s[1..])
    ensures ToMap(s[1..]) == ToMap(s) - {s[0].term}
  {
    var k, rest := s[0].term, ToMap(s[1..]);
    ToMapHasKey(s[1..], k);
    if HasKey(s[1..], k) {
      var i :| 0 <= i < |s| - 1 && s[1..][i].term == k;
      assert Less(k, s[i + 1].term);
      LessIrreflexive(k);
    }
    assert ToMap(s) == rest[k := s[0].explanation];
    assert rest[k := s[0].explanation] - {k} == rest;
  }

  /** Keys are unique: the dictionary has exactly as many keys as the sequence has entries. */
  lemma {:induction false} SortedSize(s: seq<Term>)
    requires Sorted(s)
    ensures |ToMap(s)| == |s|
  {
    if s != [] {
      HeadNotInTail(s);
      SortedSize(s[1..]);
    }
  }

  /** The order is fixed by the contents: two sorted sequences for one dictionary are equal. */
  lemma {:induction false} SortedDeterminedByContents(s1: seq<Term>, s2: seq<Term>)
    requires Sorted(s1) && Sorted(s2) && ToMap(s1) == ToMap(s2)
    ensures s1 == s2
  {
    if s1 != [] {
      assert s1[0].term in ToMap(s2);
    }
    if s2 != [] {
      assert s2[0].term in ToMap(s1);
    }
    if s1 != [] && s2 != [] {
      var a, b := s1[0], s2[0];
      if a.term != b.term {
        ToMapHasKey(s2, a.term);
        ToMapHasKey(s1, b.term);
        var j :| 0 <= j < |s2| && s2[j].term == a.term;
        var k :| 0 <= k < |s1| && s1[k].term == b.term;
        assert Less(b.term, a.term) && Less(a.term, b.term);
        LessAsymmetric(a.term, b.term);
      }
      HeadNotInTail(s1);
      HeadNotInTail(s2);
      SortedDeterminedByContents(s1[1..], s2[1..]);
      assert s1 == [a] + s1[1..] && s2 == [b] + s2[1..];
    }
  }

  /** A new largest key goes at the end. */
  lemma {:induction false} PutAtEnd(s: seq<Term>, t: Term)
    requires forall i :: 0 <= i < |s| ==> Less(s[i].term, t.term)
    ensures Put(s, t) == s + [t]
  {
    if s != [] {
      LessAsymmetric(s[0].term, t.term);
      LessIrreflexive(t.term);
      PutAtEnd(s[1..], t);
      assert s == [s[0]] + s[1..];
    }
  }

  /** Reading a sorted sequence in order: entry `i` has a new key and `Put` appends it. */
  lemma PutNextOfSorted(s: seq<Term>, i: nat)
    requires Sorted(s) && i < |s|
    ensures !HasKey(s[..i], s[i].term)
    ensures Put(s[..i], s[i]) == s[..i + 1]
  {
    var t := s[i];
    forall j | 0 <= j < i
      ensures s[..i][j].term != t.term
    {
      LessIrreflexive(t.term);
    }
    PutAtEnd(s[..i], t);
    assert s[..i] + [t] == s[..i + 1];
  }

  lemma {:induction false} PutAbove(key: string, s: seq<Term>, t: Term)
    requires Above(key, s) && Less(key, t.term)
    ensures Above(key, Put(s, t))
  {
    if s != [] && !Less(t.term, s[0].term) && t.term != s[0].term {
      PutAbove(key, s[1..], t);
    }
  }

  /** `Put` keeps the keys in ascending order. */
  lemma {:induction false} PutSorted(s: seq<Term>, t: Term)
    requires Sorted(s)
    ensures Sorted(Put(s, t))
  {
    if s == [] {
    } else if Less(t.term, s[0].term) {
      forall i | 0 <= i < |s|
        ensures Less(t.term, s[i].term)
      {
        if i > 0 {
          LessTransitive(t.term, s[0].term, s[i].term);
        }
      }
    } else if t.term == s[0].term {
    } else {
      LessTotal(t.term, s[0].term);
      PutSorted(s[1..], t);
      PutAbove(s[0].term, s[1..], t);
    }
  }

  /** Updates of two different keys commute. */
  lemma UpdatesCommute(m: map<string, string>, k1: string, v1: string, k2: string, v2: string)
    requires k1 != k2
    ensures m[k1 := v1][k2 := v2] == m[k2 := v2][k1 := v1]
  {
  }

  /** `Put` maps the key to the new explanation and leaves every other key alone. */
  lemma {:induction false} PutContents(s: seq<Term>, t: Term)
    ensures ToMap(Put(s, t)) == ToMap(s)[t.term := t.explanation]
  {
    if s != [] && !Less(t.term, s[0].term) && t.term != s[0].term {
      var rest := ToMap(s[1..]);
      PutContents(s[1..], t);
      assert ([s[0]] + Put(s[1..], t))[1..] == Put(s[1..], t);
      assert ToMap(Put(s, t)) == rest[t.term := t.explanation][s[0].term := s[0].explanation];
      UpdatesCommute(rest, t.term, t.explanation, s[0].term, s[0].explanation);
    } else if s != [] && t.term == s[0].term {
      assert ([t] + s[1..])[1..] == s[1..];
      assert ToMap(s)[t.term := t.explanation] == ToMap(s[1..])[t.term := t.explanation];
    } else {
      assert ([t] + s)[1..] == s;
    }
  }

  /** After `Put` the keys present are the old ones and the key put. */
  lemma PutHasKey(s: seq<Term>, t: Term, k: string)
    ensures HasKey(Put(s, t), k) <==> HasKey(s, k) || k == t.term
  {
    PutContents(s, t);
    ToMapHasKey(s, k);
    ToMapHasKey(Put(s, t), k);
  }

  lemma {:induction false} DeleteAbove(key: string, s: seq<Term>, k: string)
    requires Above(key, s)
    ensures Above(key, Delete(s, k))
  {
    if s != [] && s[0].term != k {
      DeleteAbove(key, s[1..], k);
    }
  }

  /** `Delete` keeps the keys in ascending order. */
  lemma {:induction false} DeleteSorted(s: seq<Term>, k: string)
    requires Sorted(s)
    ensures Sorted(Delete(s, k))
  {
    if s != [] && s[0].term != k {
      DeleteSorted(s[1..], k);
      DeleteAbove(s[0].term, s[1..], k);
    }
  }

  /** `Delete` removes exactly that key from a sorted sequence. */
  lemma {:induction false} DeleteContents(s: seq<Term>, k: string)
    requires Sorted(s)
    ensures ToMap(Delete(s, k)) == ToMap(s) - {k}
  {
    if s != [] {
      HeadNotInTail(s);
      if s[0].term != k {
        DeleteContents(s[1..], k);
        assert ([s[0]] + Delete(s[1..], k))[1..] == Delete(s[1..], k);
      }
    }
  }

  /** Replacing one entry's explanation in place changes the dictionary at that key only. */
  lemma {:induction false} ReplaceContents(s: seq<Term>, i: nat, e: string)
    requires Sorted(s) && i < |s|
    ensures ToMap(s[i := Term(s[i].term, e)]) == ToMap(s)[s[i].term := e]
  {
    var x := Term(s[i].term, e);
    if i == 0 {
      assert s[0 := x][1..] == s[1..];
    } else {
      ReplaceContents(s[1..], i - 1, e);
      assert s[i := x][1..] == s[1..][i - 1 := x];
      assert s[i := x][0] == s[0];
      LessIrreflexive(s[0].term);
    }
  }

  lemma ReplaceSorted(s: seq<Term>, i: nat, e: string)
    requires Sorted(s) && i < |s|
    ensures Sorted(s[i := Term(s[i].term, e)])
  {
    var r := s[i := Term(s[i].term, e)];
    assert forall j :: 0 <= j < |s| ==> r[j].term == s[j].term;
  }

  /** The tag revision's update as a map operation: remove the key, then add it with the new explanation. */
  lemma RemoveThenPut(s: seq<Term>, x: Term)
    requires Sorted(s)
    ensures Sorted(Put(Delete(s, x.term), x))
    ensures ToMap(Put(Delete(s, x.term), x)) == ToMap(s)[x.term := x.explanation]
  {
    var removed := Delete(s, x.term);
    DeleteSorted(s, x.term);
    PutSorted(removed, x);
    DeleteContents(s, x.term);
    PutContents(removed, x);
    assert (ToMap(s) - {x.term})[x.term := x.explanation] == ToMap(s)[x.term := x.explanation];
  }

  /**
   * Removing a key and adding it back with a new explanation leaves every entry
   * where it was and replaces only that explanation.
   */
  lemma UpdateInPlace(s: seq<Term>, i: nat, e: string)
    requires Sorted(s) && i < |s|
    ensures Put(Delete(s, s[i].term), Term(s[i].term, e)) == s[i := Term(s[i].term, e)]
  {
    var x := Term(s[i].term, e);
    RemoveThenPut(s, x);
    ReplaceSorted(s, i, e);
    ReplaceContents(s, i, e);
    SortedDeterminedByContents(Put(Delete(s, x.term), x), s[i := x]);
  }
}
