/** Group-by counting over a column of optional string keys, as pandas does it with
    groupby(...).size(), value_counts(), reindex(...) and dropna(): missing keys form no group. */
module Grouping {
  import opened Wrappers
  import opened Strings
  import opened Seqs

  /** One entry of a count series: a key and the number of rows that carry it. */
  datatype Group = Group(key: string, size: nat)

  /** One entry after reindexing: the key asked for and its count, missing when the key had no group. */
  datatype Slot = Slot(key: string, size: Option<nat>)

  predicate Distinct(s: seq<string>)
  {
    forall i, j :: 0 <= i < j < |s| ==> s[i] != s[j]
  }

  /** The keys that are present (not missing), in order. */
  function Present(keys: seq<Option<string>>): (r: seq<string>)
    ensures |r| <= |keys|
    ensures forall k :: k in r <==> Some(k) in keys
  {
    if keys == [] then []
    else
      assert keys == [keys[0]] + keys[1..];
      (if keys[0].Some? then [keys[0].value] else []) + Present(keys[1..])
  }

  /** How many rows carry key k. */
  function Occurrences(keys: seq<Option<string>>, k: string): (n: nat)
    ensures n <= |keys|
    ensures n > 0 <==> Some(k) in keys
  {
    if keys == [] then 0
    else
      assert keys == [keys[0]] + keys[1..];
      (if keys[0] == Some(k) then 1 else 0) + Occurrences(keys[1..], k)
  }

  /** How many rows carry a key from S. */
  function CountIn(keys: seq<Option<string>>, S: set<string>): nat
  {
    if keys == [] then 0
    else (if keys[0].Some? && keys[0].value in S then 1 else 0) + CountIn(keys[1..], S)
  }

  function KeysOf(g: seq<Group>): (r: seq<string>)
    ensures |r| == |g| && forall i :: 0 <= i < |g| ==> r[i] == g[i].key
  {
    if g == [] then [] else [g[0].key] + KeysOf(g[1..])
  }

  function TotalSize(g: seq<Group>): nat
  {
    if g == [] then 0 else g[0].size + TotalSize(g[1..])
  }

  /** The count of each key of order, in that order. */
  function SizesIn(order: seq<string>, keys: seq<Option<string>>): (r: seq<Group>)
    ensures |r| == |order|
    ensures forall i :: 0 <= i < |order| ==> r[i] == Group(order[i], Occurrences(keys, order[i]))
  {
    if order == [] then [] else [Group(order[0], Occurrences(keys, order[0]))] + SizesIn(order[1..], keys)
  }

  /** groupby(keys).size(): one group per distinct present key, keys in increasing order, each
      size the number of rows with that key; missing keys form no group. */
  function GroupSizes(keys: seq<Option<string>>): (g: seq<Group>)
    ensures StrictlySorted(KeysOf(g))
    ensures forall k :: k in KeysOf(g) <==> Some(k) in keys
    ensures forall i :: 0 <= i < |g| ==> g[i].size == Occurrences(keys, g[i].key) && g[i].size >= 1
  {
    var order := SortedDistinct(Present(keys));
    var g := SizesIn(order, keys);
    assert KeysOf(g) == order;
    g
  }

  /** The size stored for key k, looked up from the front (series[k]). */
  function Lookup(g: seq<Group>, k: string): (r: Option<nat>)
    ensures r.Some? <==> k in KeysOf(g)
    ensures r.Some? ==> exists i :: 0 <= i < |g| && g[i].key == k && g[i].size == r.value
  {
    if g == [] then None
    else if g[0].key == k then Some(g[0].size)
    else
      var r := Lookup(g[1..], k);
      assert KeysOf(g) == [g[0].key] + KeysOf(g[1..]);
      assert r.Some? ==> exists i :: 1 <= i < |g| && g[i].key == k && g[i].size == r.value;
      r
  }

  /** series.reindex(order): the entry of every key of order, missing where there is none. */
  function Reindex(order: seq<string>, g: seq<Group>): (r: seq<Slot>)
    ensures |r| == |order|
    ensures forall i :: 0 <= i < |order| ==> r[i] == Slot(order[i], Lookup(g, order[i]))
  {
    if order == [] then [] else [Slot(order[0], Lookup(g, order[0]))] + Reindex(order[1..], g)
  }

  /** series.dropna(): the entries whose size is present. */
  function DropMissing(s: seq<Slot>): (r: seq<Group>)
    ensures |r| <= |s|
    ensures forall g :: g in r <==> Slot(g.key, Some(g.size)) in s
  {
    if s == [] then []
    else if s[0].size.Some? then [Group(s[0].key, s[0].size.value)] + DropMissing(s[1..])
    else DropMissing(s[1..])
  }

  /** Sum of the counts of the keys of order. */
  function SumOccurrences(order: seq<string>, keys: seq<Option<string>>): nat
  {
    if order == [] then 0 else Occurrences(keys, order[0]) + SumOccurrences(order[1..], keys)
  }

  // ---------------------------------------------------------------------------

  /** Looking up a key in a group-by result gives its number of rows, or nothing if no row has it. */
  lemma LookupGroupSizes(keys: seq<Option<string>>, k: string)
    ensures Lookup(GroupSizes(keys), k) == if Occurrences(keys, k) > 0 then Some(Occurrences(keys, k)) else None
  {
  }

  lemma {:induction false} CountInSplit(keys: seq<Option<string>>, d: string, S: set<string>)
    requires d !in S
    ensures CountIn(keys, S + {d}) == Occurrences(keys, d) + CountIn(keys, S)
  {
    if keys != [] {
      CountInSplit(keys[1..], d, S);
    }
  }

  lemma {:induction false} SumOccurrencesDistinct(order: seq<string>, keys: seq<Option<string>>)
    requires Distinct(order)
    ensures SumOccurrences(order, keys) == CountIn(keys, set k | k in order)
  {
    if order == [] {
      assert (set k | k in order) == {};
      CountInEmpty(keys);
    } else {
      var rest := order[1..];
      assert Distinct(rest);
      SumOccurrencesDistinct(rest, keys);
      assert order[0] !in rest;
      assert (set k | k in order) == (set k | k in rest) + {order[0]};
      CountInSplit(keys, order[0], set k | k in rest);
    }
  }

  lemma {:induction false} CountInEmpty(keys: seq<Option<string>>)
    ensures CountIn(keys, {}) == 0
  {
    if keys != [] {
      CountInEmpty(keys[1..]);
    }
  }

  /** When S contains every present key, counting the keys in S counts every present key. */
  lemma {:induction false} CountInCovering(keys: seq<Option<string>>, S: set<string>)
    requires forall k :: Some(k) in keys ==> k in S
    ensures CountIn(keys, S) == |Present(keys)|
  {
    if keys != [] {
      assert keys == [keys[0]] + keys[1..];
      CountInCovering(keys[1..], S);
    }
  }

  lemma {:induction false} SizesInTotal(order: seq<string>, keys: seq<Option<string>>)
    ensures TotalSize(SizesIn(order, keys)) == SumOccurrences(order, keys)
  {
    if order != [] {
      SizesInTotal(order[1..], keys);
      assert SizesIn(order, keys)[1..] == SizesIn(order[1..], keys);
    }
  }

  lemma StrictlySortedDistinct(s: seq<string>)
    requires StrictlySorted(s)
    ensures Distinct(s)
  {
    forall i, j | 0 <= i < j < |s| ensures s[i] != s[j] {
      LessIrreflexive(s[i]);
    }
  }

  /** The sizes of a group-by result add up to the number of rows whose key is present. */
  lemma GroupSizesTotal(keys: seq<Option<string>>)
    ensures TotalSize(GroupSizes(keys)) == |Present(keys)|
  {
    var order := SortedDistinct(Present(keys));
    StrictlySortedDistinct(order);
    SizesInTotal(order, keys);
    SumOccurrencesDistinct(order, keys);
    CountInCovering(keys, set k | k in order);
  }

  /** Reindexing a group-by result by a list of keys and dropping the missing entries adds up to
      the counts of the listed keys: a listed key without rows contributes nothing. */
  lemma {:induction false} ReindexTotal(order: seq<string>, keys: seq<Option<string>>)
    ensures TotalSize(DropMissing(Reindex(order, GroupSizes(keys)))) == SumOccurrences(order, keys)
  {
    if order != [] {
      ReindexTotal(order[1..], keys);
      LookupGroupSizes(keys, order[0]);
    }
  }

  /** After reindex and dropna the keys keep the order of the key list, every entry has the size
      stored for its key, and a key is present exactly when it is listed and has an entry. */
  lemma {:induction false} ReindexEntries(order: seq<string>, g: seq<Group>)
    ensures IsSubsequence(KeysOf(DropMissing(Reindex(order, g))), order)
    ensures forall i :: 0 <= i < |DropMissing(Reindex(order, g))| ==>
      Lookup(g, DropMissing(Reindex(order, g))[i].key) == Some(DropMissing(Reindex(order, g))[i].size)
    ensures forall k :: k in KeysOf(DropMissing(Reindex(order, g))) <==> k in order && Lookup(g, k).Some?
  {
    if order != [] {
      ReindexEntries(order[1..], g);
      var s := DropMissing(Reindex(order, g));
      var t := DropMissing(Reindex(order[1..], g));
      assert Reindex(order, g)[1..] == Reindex(order[1..], g);
      assert order == [order[0]] + order[1..];
      if Lookup(g, order[0]).Some? {
        assert s == [Group(order[0], Lookup(g, order[0]).value)] + t;
        assert KeysOf(s) == [order[0]] + KeysOf(t);
        assert KeysOf(s)[1..] == KeysOf(t);
      } else {
        assert s == t;
      }
    }
  }

  /** After grouping, reindexing by a list that holds k and dropping the missing entries, k is
      kept exactly when some row carries it, and then with its number of rows. */
  lemma SeriesCounts(order: seq<string>, keys: seq<Option<string>>, k: string)
    requires k in order
    ensures k in KeysOf(DropMissing(Reindex(order, GroupSizes(keys)))) <==> Occurrences(keys, k) > 0
    ensures var s := DropMissing(Reindex(order, GroupSizes(keys)));
      forall i :: 0 <= i < |s| && s[i].key == k ==> s[i].size == Occurrences(keys, k)
  {
    ReindexEntries(order, GroupSizes(keys));
    LookupGroupSizes(keys, k);
  }

  /** Reindexing groups of positive size and dropping the missing entries keeps at most one
      entry per listed key, each a listed key with a positive size. */
  lemma ReindexedEntries(order: seq<string>, g: seq<Group>)
    requires forall i :: 0 <= i < |g| ==> g[i].size >= 1
    ensures |DropMissing(Reindex(order, g))| <= |order|
    ensures forall i :: 0 <= i < |DropMissing(Reindex(order, g))| ==>
      DropMissing(Reindex(order, g))[i].key in order && DropMissing(Reindex(order, g))[i].size >= 1
  {
    var slots := Reindex(order, g);
    var r := DropMissing(slots);
    forall i | 0 <= i < |r| ensures r[i].key in order && r[i].size >= 1 {
      assert r[i] in r;
      var j :| 0 <= j < |slots| && slots[j] == Slot(r[i].key, Some(r[i].size));
      var k :| 0 <= k < |g| && g[k].key == order[j] && g[k].size == r[i].size;
    }
  }

  lemma {:induction false} OccurrencesConcat(a: seq<Option<string>>, b: seq<Option<string>>, k: string)
    ensures Occurrences(a + b, k) == Occurrences(a, k) + Occurrences(b, k)
  {
    if a == [] {
      assert a + b == b;
    } else {
      assert (a + b)[0] == a[0];
      assert (a + b)[1..] == a[1..] + b;
      OccurrencesConcat(a[1..], b, k);
    }
  }

  lemma {:induction false} PresentConcat(a: seq<Option<string>>, b: seq<Option<string>>)
    ensures |Present(a + b)| == |Present(a)| + |Present(b)|
  {
    if a == [] {
      assert a + b == b;
    } else {
      assert (a + b)[0] == a[0];
      assert (a + b)[1..] == a[1..] + b;
      PresentConcat(a[1..], b);
    }
  }

  lemma {:induction false} DropMissingNone(s: seq<Slot>)
    requires forall i :: 0 <= i < |s| ==> s[i].size.None?
    ensures DropMissing(s) == []
  {
    if s != [] {
      DropMissingNone(s[1..]);
    }
  }
}
