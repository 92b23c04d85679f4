/**
 * Keys, page identifiers and the key-ordered entry arrays that leaves and
 * inner pages are made of (KeyValue and KeyPid in nodes.hpp), together with
 * the sort by key that both page builders perform (std::sort with a
 * key-comparing lambda).
 */
module Keys {

  datatype Option<T> = None | Some(value: T)

  /** numeric_limits<Key>::max() for the unsigned 64-bit keys the tree is used with. */
  const MaxKey: int := 0xFFFF_FFFF_FFFF_FFFF

  type Key = k: int | 0 <= k <= MaxKey

  /** A logical page identifier: an index into the mapping table. */
  type PID = nat

  /** The reserved "no page" identifier, numeric_limits<PID>::max(). */
  const NotExistantPID: PID := 0xFFFF_FFFF_FFFF_FFFF

  /** The record payload, a `const Data*`: stored and handed back, never inspected. */
  type Data(==, 0)

  /** A key with its payload: KeyValue for leaves, KeyPid for inner pages. */
  datatype Entry<V> = Entry(key: Key, value: V)

  type KeyValue = Entry<Data>

  type KeyPid = Entry<PID>

  predicate SortedByKey<V>(s: seq<Entry<V>>)
  {
    forall i, j :: 0 <= i < j < |s| ==> s[i].key <= s[j].key
  }

  predicate StrictlySorted<V>(s: seq<Entry<V>>)
  {
    forall i, j :: 0 <= i < j < |s| ==> s[i].key < s[j].key
  }

  predicate DistinctKeys<V>(s: seq<Entry<V>>)
  {
    forall i, j :: 0 <= i < j < |s| ==> s[i].key != s[j].key
  }

  /** The payload of the leftmost entry with key `k`, if there is one. */
  function FirstValue<V>(s: seq<Entry<V>>, k: Key): Option<V>
  {
    if s == [] then None
    else if s[0].key == k then Some(s[0].value)
    else FirstValue(s[1..], k)
  }

  lemma {:induction false} FirstValueNone<V>(s: seq<Entry<V>>, k: Key)
    ensures FirstValue(s, k) == None <==> forall i :: 0 <= i < |s| ==> s[i].key != k
  {
    if s != [] {
      FirstValueNone(s[1..], k);
      if FirstValue(s, k) == None {
        forall i | 0 <= i < |s| ensures s[i].key != k {
          if i > 0 { assert s[i] == s[1..][i - 1]; }
        }
      } else if s[0].key != k {
        var i :| 0 <= i < |s[1..]| && s[1..][i].key == k;
        assert s[i + 1].key == k;
      }
    }
  }

  lemma {:induction false} FirstValueFound<V>(s: seq<Entry<V>>, k: Key)
    requires FirstValue(s, k).Some?
    ensures exists i :: 0 <= i < |s| && s[i] == Entry(k, FirstValue(s, k).value)
  {
    if s[0].key == k {
      assert s[0] == Entry(k, FirstValue(s, k).value);
    } else {
      FirstValueFound(s[1..], k);
      var i :| 0 <= i < |s[1..]| && s[1..][i] == Entry(k, FirstValue(s, k).value);
      assert s[i + 1] == s[1..][i];
    }
  }

  /** Entries known not to carry `k` can be skipped. */
  lemma {:induction false} FirstValueSkip<V>(s: seq<Entry<V>>, k: Key, n: nat)
    requires n <= |s|
    requires forall j :: 0 <= j < n ==> s[j].key != k
    ensures FirstValue(s, k) == FirstValue(s[n..], k)
  {
    if n > 0 {
      FirstValueSkip(s[1..], k, n - 1);
      assert s[1..][n - 1..] == s[n..];
    }
  }

  /** Appending an entry only matters for a key the sequence does not already hold. */
  lemma {:induction false} FirstValueAppend<V>(s: seq<Entry<V>>, x: Entry<V>, k: Key)
    ensures FirstValue(s + [x], k) ==
      if FirstValue(s, k).Some? then FirstValue(s, k) else if x.key == k then Some(x.value) else None
  {
    if s == [] {
      assert s + [x] == [x];
    } else {
      assert (s + [x])[1..] == s[1..] + [x];
      FirstValueAppend(s[1..], x, k);
    }
  }

  /** In a strictly sorted sequence, the entries after position m are exactly those with larger keys. */
  lemma FirstValueAfter<V>(s: seq<Entry<V>>, m: nat, k: Key)
    requires StrictlySorted(s) && m < |s|
    ensures FirstValue(s[m + 1..], k) == if k > s[m].key then FirstValue(s, k) else None
  {
    if k > s[m].key {
      FirstValueSkip(s, k, m + 1);
    } else {
      var t := s[m + 1..];
      forall i | 0 <= i < |t| ensures t[i].key != k {
        assert t[i] == s[m + 1 + i];
      }
      FirstValueNone(t, k);
    }
  }

  /** Without duplicate keys, the leftmost entry for a key is the only one. */
  lemma {:induction false} FirstValueOfDistinct<V>(s: seq<Entry<V>>, k: Key, v: V)
    requires DistinctKeys(s)
    ensures FirstValue(s, k) == Some(v) <==> Entry(k, v) in s
  {
    if s != [] {
      FirstValueOfDistinct(s[1..], k, v);
      if s[0].key == k {
        forall i | 0 <= i < |s[1..]| ensures s[1..][i].key != k {
          assert s[1..][i] == s[i + 1];
        }
      }
      assert s == [s[0]] + s[1..];
    }
  }

  lemma {:induction false} MultiplicityAtMostOne<V>(s: seq<Entry<V>>, x: Entry<V>)
    requires DistinctKeys(s)
    ensures multiset(s)[x] <= 1
  {
    if s != [] {
      assert s == [s[0]] + s[1..];
      MultiplicityAtMostOne(s[1..], x);
      if x == s[0] {
        forall i | 0 <= i < |s[1..]| ensures s[1..][i].key != x.key {
          assert s[1..][i] == s[i + 1];
        }
      }
    }
  }

  lemma TwoPositions<V>(t: seq<Entry<V>>, i: nat, j: nat)
    requires i < j < |t| && t[i] == t[j]
    ensures multiset(t)[t[i]] >= 2
  {
    assert t == t[..j] + t[j..];
    assert t[i] in t[..j];
    assert t[j..][0] == t[i];
  }

  /** A permutation of entries with distinct keys has distinct keys and the same key-to-payload view. */
  lemma {:induction false} PermutationKeepsFirstValue<V>(s: seq<Entry<V>>, t: seq<Entry<V>>)
    requires DistinctKeys(s)
    requires multiset(s) == multiset(t)
    ensures DistinctKeys(t)
    ensures forall k :: FirstValue(s, k) == FirstValue(t, k)
  {
    forall i, j | 0 <= i < j < |t| ensures t[i].key != t[j].key {
      assert t[i] in multiset(s) && t[j] in multiset(s);
      if t[i] == t[j] {
        TwoPositions(t, i, j);
        MultiplicityAtMostOne(s, t[i]);
      }
    }
    forall k ensures FirstValue(s, k) == FirstValue(t, k) {
      if FirstValue(s, k).Some? {
        var v := FirstValue(s, k).value;
        FirstValueOfDistinct(s, k, v);
        assert Entry(k, v) in multiset(t);
        FirstValueOfDistinct(t, k, v);
      } else if FirstValue(t, k).Some? {
        var v := FirstValue(t, k).value;
        FirstValueOfDistinct(t, k, v);
        assert Entry(k, v) in multiset(s);
        FirstValueOfDistinct(s, k, v);
      }
    }
  }

  /** Two strictly key-sorted sequences with the same key-to-payload view are equal. */
  lemma {:induction false} StrictlySortedUnique<V>(s: seq<Entry<V>>, t: seq<Entry<V>>)
    requires StrictlySorted(s) && StrictlySorted(t)
    requires forall k :: FirstValue(s, k) == FirstValue(t, k)
    ensures s == t
    decreases |s| + |t|
  {
    if s != [] { assert FirstValue(s, s[0].key).Some?; }
    if t != [] { assert FirstValue(t, t[0].key).Some?; }
    if s != [] && t != [] {
      var a, b := s[0], t[0];
      assert FirstValue(t, a.key) == Some(a.value);
      FirstValueFound(t, a.key);
      assert FirstValue(s, b.key) == Some(b.value);
      FirstValueFound(s, b.key);
      assert a.key == b.key;
      assert a == b;
      forall k ensures FirstValue(s[1..], k) == FirstValue(t[1..], k) {
        if k == a.key {
          forall i | 0 <= i < |s[1..]| ensures s[1..][i].key != k {
            assert s[1..][i] == s[i + 1];
          }
          forall i | 0 <= i < |t[1..]| ensures t[1..][i].key != k {
            assert t[1..][i] == t[i + 1];
          }
          FirstValueNone(s[1..], k);
          FirstValueNone(t[1..], k);
        } else {
          assert FirstValue(s, k) == FirstValue(s[1..], k);
          assert FirstValue(t, k) == FirstValue(t[1..], k);
        }
      }
      StrictlySortedUnique(s[1..], t[1..]);
      assert s == [a] + s[1..] && t == [b] + t[1..];
    }
  }

  lemma SortedDistinctIsStrict<V>(s: seq<Entry<V>>)
    requires SortedByKey(s) && DistinctKeys(s)
    ensures StrictlySorted(s)
  {
  }

  /** Functional insertion of one entry into a key-sorted sequence. */
  function InsertByKey<V>(x: Entry<V>, s: seq<Entry<V>>): (r: seq<Entry<V>>)
    ensures multiset(r) == multiset(s) + multiset{x}
  {
    if s == [] || x.key <= s[0].key then [x] + s
    else
      assert s == [s[0]] + s[1..];
      [s[0]] + InsertByKey(x, s[1..])
  }

  /** The key-sorted permutation a sort by key produces, as a function. */
  function SortByKeySpec<V>(s: seq<Entry<V>>): (r: seq<Entry<V>>)
    ensures multiset(r) == multiset(s)
  {
    if s == [] then []
    else
      assert s == [s[0]] + s[1..];
      InsertByKey(s[0], SortByKeySpec(s[1..]))
  }

  lemma {:induction false} InsertByKeySorted<V>(x: Entry<V>, s: seq<Entry<V>>)
    requires SortedByKey(s)
    ensures SortedByKey(InsertByKey(x, s))
  {
    if s != [] && x.key > s[0].key {
      InsertByKeySorted(x, s[1..]);
      var rest := InsertByKey(x, s[1..]);
      forall j | 0 <= j < |rest| ensures s[0].key <= rest[j].key {
        assert rest[j] in multiset(s[1..]) + multiset{x};
        if rest[j] != x {
          assert rest[j] in s[1..];
        }
      }
    }
  }

  lemma {:induction false} SortByKeySpecSorted<V>(s: seq<Entry<V>>)
    ensures SortedByKey(SortByKeySpec(s))
  {
    if s != [] {
      SortByKeySpecSorted(s[1..]);
      InsertByKeySorted(s[0], SortByKeySpec(s[1..]));
    }
  }

  /** Sorting entries with distinct keys yields the one strictly sorted arrangement of them. */
  lemma SortedPermutationIsSpec<V>(s: seq<Entry<V>>, t: seq<Entry<V>>)
    requires DistinctKeys(s)
    requires SortedByKey(t) && multiset(t) == multiset(s)
    ensures t == SortByKeySpec(s)
    ensures StrictlySorted(t)
    ensures forall k :: FirstValue(t, k) == FirstValue(s, k)
  {
    var u := SortByKeySpec(s);
    SortByKeySpecSorted(s);
    PermutationKeepsFirstValue(s, t);
    PermutationKeepsFirstValue(s, u);
    SortedDistinctIsStrict(t);
    SortedDistinctIsStrict(u);
    StrictlySortedUnique(t, u);
  }

  /** Sorting entries with distinct keys gives a strictly sorted sequence with the same view. */
  lemma SortByKeySpecOfDistinct<V>(s: seq<Entry<V>>)
    requires DistinctKeys(s)
    ensures StrictlySorted(SortByKeySpec(s))
    ensures forall k :: FirstValue(SortByKeySpec(s), k) == FirstValue(s, k)
  {
    SortByKeySpecSorted(s);
    PermutationKeepsFirstValue(s, SortByKeySpec(s));
    SortedDistinctIsStrict(SortByKeySpec(s));
  }

  /** std::sort by key over a whole range: sorted afterwards, and a permutation of what was there. */
  method SortByKey<V>(a: array<Entry<V>>)
    modifies a
    ensures SortedByKey(a[..])
    ensures multiset(a[..]) == multiset(old(a[..]))
  {
    var i := 0;
    while i < a.Length
      invariant 0 <= i <= a.Length
      invariant forall p, q :: 0 <= p < q < i ==> a[p].key <= a[q].key
      invariant multiset(a[..]) == multiset(old(a[..]))
    {
      var j := i;
      while j > 0 && a[j - 1].key > a[j].key
        invariant 0 <= j <= i
        invariant multiset(a[..]) == multiset(old(a[..]))
        invariant forall p, q :: 0 <= p < q <= i && q != j ==> a[p].key <= a[q].key
      {
        SwapAdjacent(a, j);
        j := j - 1;
      }
      i := i + 1;
    }
  }

  /** Exchanges a[j - 1] and a[j]; the contents stay a permutation. */
  method SwapAdjacent<V>(a: array<Entry<V>>, j: nat)
    requires 0 < j < a.Length
    modifies a
    ensures a[j - 1] == old(a[j]) && a[j] == old(a[j - 1])
    ensures forall p :: 0 <= p < a.Length && p != j - 1 && p != j ==> a[p] == old(a[p])
    ensures multiset(a[..]) == multiset(old(a[..]))
  {
    a[j - 1], a[j] := a[j], a[j - 1];
  }
}
