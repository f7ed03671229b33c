/** The document store as the handlers see it. A collection is the sequence of its
    documents in natural (insertion) order; every document carries its `_id`.
    `find`, `get`, `sort`, `skip` and `limit` are given their query semantics here. */
module Collections {
  import opened Outcomes
  import opened ObjectIds

  datatype Doc<T> = Doc(id: ObjectId, body: T)

  predicate HasId<T>(c: seq<Doc<T>>, id: ObjectId) {
    exists i :: 0 <= i < |c| && c[i].id == id
  }

  /** MongoDB keeps `_id` unique within a collection. */
  predicate UniqueIds<T>(c: seq<Doc<T>>) {
    forall i, j :: 0 <= i < j < |c| ==> c[i].id != c[j].id
  }

  /** Position of the document with the given `_id`, the first one if there were several. */
  function Find<T>(c: seq<Doc<T>>, id: ObjectId): (r: Option<nat>)
    ensures r.Some? ==> r.value < |c| && c[r.value].id == id
    ensures r.Some? ==> forall j :: 0 <= j < r.value ==> c[j].id != id
    ensures r.None? <==> !HasId(c, id)
  {
    if c == [] then None
    else if c[0].id == id then Some(0)
    else match Find(c[1..], id)
      case None => None
      case Some(k) => Some(k + 1)
  }

  /** `Model.get(id)`: the stored document, or `None`. */
  function Lookup<T>(c: seq<Doc<T>>, id: ObjectId): (r: Option<T>)
    ensures r.Some? <==> HasId(c, id)
    ensures r.Some? ==> Doc(id, r.value) in c
  {
    match Find(c, id)
    case None => None
    case Some(k) => Some(c[k].body)
  }

  /** With unique ids, `get` returns the one document that has the id. */
  lemma LookupUnique<T>(c: seq<Doc<T>>, i: nat)
    requires UniqueIds(c) && i < |c|
    ensures Lookup(c, c[i].id) == Some(c[i].body)
  {
    var k := Find(c, c[i].id);
    assert k.Some?;
  }

  /** `save()` / `$set` on a stored document: the document with that id gets the new body,
      every other document and the order stay as they were. */
  function Replace<T>(c: seq<Doc<T>>, id: ObjectId, body: T): (r: seq<Doc<T>>)
    ensures |r| == |c|
    ensures forall i :: 0 <= i < |c| ==> r[i].id == c[i].id
    ensures forall i :: 0 <= i < |c| && c[i].id != id ==> r[i] == c[i]
    ensures forall i :: 0 <= i < |c| && c[i].id == id ==> r[i].body == body
  {
    seq(|c|, i requires 0 <= i < |c| => if c[i].id == id then Doc(id, body) else c[i])
  }

  lemma ReplaceKeepsUniqueIds<T>(c: seq<Doc<T>>, id: ObjectId, body: T)
    requires UniqueIds(c)
    ensures UniqueIds(Replace(c, id, body))
  {
  }

  /** `get` looks only at the ids, so two collections with the same ids in the same
      order find every id at the same position. */
  lemma {:induction false} FindSameIds<T>(c: seq<Doc<T>>, d: seq<Doc<T>>, x: ObjectId)
    requires |c| == |d| && forall i :: 0 <= i < |c| ==> c[i].id == d[i].id
    ensures Find(c, x) == Find(d, x)
  {
    if c != [] {
      FindSameIds(c[1..], d[1..], x);
    }
  }

  /** After a save, `get` returns the new body for that id and the old answer for every other id. */
  lemma LookupReplace<T>(c: seq<Doc<T>>, id: ObjectId, body: T, other: ObjectId)
    requires HasId(c, id)
    ensures Lookup(Replace(c, id, body), id) == Some(body)
    ensures other != id ==> Lookup(Replace(c, id, body), other) == Lookup(c, other)
  {
    var r := Replace(c, id, body);
    FindSameIds(r, c, id);
    FindSameIds(r, c, other);
  }

  /** `find_one(filter)`: the first stored document whose body matches. */
  function FindFirst<T>(c: seq<Doc<T>>, p: T -> bool): (r: Option<Doc<T>>)
    ensures r.Some? ==> r.value in c && p(r.value.body)
    ensures r.None? <==> forall i :: 0 <= i < |c| ==> !p(c[i].body)
    ensures r.Some? && c != [] && p(c[0].body) ==> r.value == c[0]
  {
    if c == [] then None
    else if p(c[0].body) then Some(c[0])
    else FindFirst(c[1..], p)
  }

  /** A document appended after documents of which none matches is the first match. */
  lemma {:induction false} FindFirstAppend<T>(c: seq<Doc<T>>, d: Doc<T>, p: T -> bool)
    requires forall i :: 0 <= i < |c| ==> !p(c[i].body)
    requires p(d.body)
    ensures FindFirst(c + [d], p) == Some(d)
  {
    if c != [] {
      assert (c + [d])[1..] == c[1..] + [d];
      FindFirstAppend(c[1..], d, p);
    }
  }

  /** `find(...)` with a filter: the matching elements, in the order they are stored. */
  function Filter<T(==)>(s: seq<T>, p: T -> bool): (r: seq<T>)
    ensures |r| <= |s|
    ensures forall i :: 0 <= i < |r| ==> p(r[i])
    ensures forall i :: 0 <= i < |r| ==> r[i] in s
    ensures forall i :: 0 <= i < |s| && p(s[i]) ==> s[i] in r
  {
    if s == [] then []
    else (if p(s[0]) then [s[0]] else []) + Filter(s[1..], p)
  }

  /** `r` is `s` with some elements left out and the others in their stored order. */
  predicate Subsequence<T(==)>(r: seq<T>, s: seq<T>)
    decreases |s|
  {
    if r == [] then true
    else if s == [] then false
    else if r[0] == s[0] then Subsequence(r[1..], s[1..])
    else Subsequence(r, s[1..])
  }

  /** A filtered listing keeps the stored order. */
  lemma {:induction false} FilterIsSubsequence<T>(s: seq<T>, p: T -> bool)
    ensures Subsequence(Filter(s, p), s)
  {
    if s != [] {
      FilterIsSubsequence(s[1..], p);
      var f := Filter(s, p);
      if p(s[0]) {
        assert f[0] == s[0] && f[1..] == Filter(s[1..], p);
      } else {
        assert f == Filter(s[1..], p);
        assert f != [] ==> f[0] != s[0];
      }
    }
  }

  /** Filtering distributes over concatenation, so it keeps the relative order of what it keeps. */
  lemma {:induction false} FilterAppend<T>(s: seq<T>, t: seq<T>, p: T -> bool)
    ensures Filter(s + t, p) == Filter(s, p) + Filter(t, p)
  {
    if s != [] {
      assert (s + t)[1..] == s[1..] + t;
      FilterAppend(s[1..], t, p);
    } else {
      assert s + t == t;
    }
  }

  /** A filter that accepts everything returns the sequence itself. */
  lemma {:induction false} FilterAll<T>(s: seq<T>, p: T -> bool)
    requires forall x :: x in s ==> p(x)
    ensures Filter(s, p) == s
  {
    if s != [] {
      assert forall x :: x in s[1..] ==> x in s;
      FilterAll(s[1..], p);
    }
  }

  /** Two complementary filters split a sequence: every element goes to exactly one side. */
  lemma {:induction false} FilterPartition<T>(s: seq<T>, p: T -> bool, q: T -> bool)
    requires forall x :: q(x) == !p(x)
    ensures |Filter(s, p)| + |Filter(s, q)| == |s|
  {
    if s != [] {
      FilterPartition(s[1..], p, q);
    }
  }

  /** `delete()`: every document with that id is gone, nothing else changes. */
  function Remove<T(==)>(c: seq<Doc<T>>, id: ObjectId): (r: seq<Doc<T>>)
    ensures !HasId(r, id)
    ensures forall i :: 0 <= i < |r| ==> r[i] in c
    ensures forall i :: 0 <= i < |c| && c[i].id != id ==> c[i] in r
  {
    var r := Filter(c, (d: Doc<T>) => d.id != id);
    assert forall i :: 0 <= i < |r| ==> r[i].id != id;
    r
  }

  /** Keeping only some documents keeps any key that was distinct across the collection
      distinct. */
  lemma {:induction false} FilterKeepsDistinct<T, K>(c: seq<Doc<T>>, p: Doc<T> -> bool, key: Doc<T> -> K)
    requires forall i, j :: 0 <= i < j < |c| ==> key(c[i]) != key(c[j])
    ensures forall i, j :: 0 <= i < j < |Filter(c, p)| ==> key(Filter(c, p)[i]) != key(Filter(c, p)[j])
  {
    if c != [] {
      FilterKeepsDistinct(c[1..], p, key);
      var rest := Filter(c[1..], p);
      if p(c[0]) {
        var r := [c[0]] + rest;
        assert Filter(c, p) == r;
        forall k | 0 <= k < |rest| ensures key(rest[k]) != key(c[0]) {
          var m :| 0 <= m < |c[1..]| && c[1..][m] == rest[k];
          assert c[m + 1] == rest[k];
        }
        forall i, j | 0 <= i < j < |r| ensures key(r[i]) != key(r[j]) {
          assert r[j] == rest[j - 1];
          if i > 0 {
            assert r[i] == rest[i - 1];
          }
        }
      } else {
        assert Filter(c, p) == rest;
      }
    }
  }

  /** Keeping only some documents keeps their ids unique. */
  lemma FilterKeepsUniqueIds<T>(c: seq<Doc<T>>, p: Doc<T> -> bool)
    requires UniqueIds(c)
    ensures UniqueIds(Filter(c, p))
  {
    FilterKeepsDistinct(c, p, (d: Doc<T>) => d.id);
  }

  lemma RemoveKeepsUniqueIds<T>(c: seq<Doc<T>>, id: ObjectId)
    requires UniqueIds(c)
    ensures UniqueIds(Remove(c, id))
  {
    FilterKeepsUniqueIds(c, (d: Doc<T>) => d.id != id);
  }

  /** `.skip(skip).limit(limit)` on a query result. */
  function Page<T>(s: seq<T>, skip: nat, limit: nat): (r: seq<T>)
    ensures |r| <= limit
    ensures skip >= |s| ==> r == []
    ensures skip < |s| ==> r == s[skip..skip + (if limit <= |s| - skip then limit else |s| - skip)]
  {
    if skip >= |s| then []
    else if limit <= |s| - skip then s[skip..skip + limit]
    else s[skip..]
  }

  /** A page holds only elements of the sequence it is cut from. */
  lemma PageElements<T>(s: seq<T>, skip: nat, limit: nat)
    ensures forall i :: 0 <= i < |Page(s, skip, limit)| ==> Page(s, skip, limit)[i] in s
  {
    var r := Page(s, skip, limit);
    forall i | 0 <= i < |r| ensures r[i] in s {
      assert r[i] == s[skip + i];
    }
  }
}

/** `.sort(key)` of a query. MongoDB leaves the order of equal keys open; the model
    picks the stable order (equal keys keep their natural order). */
module Sorting {

  /** Non-decreasing in `key`. A descending sort is an ascending sort on the negated key. */
  ghost predicate SortedBy<T>(s: seq<T>, key: T -> int) {
    forall i, j :: 0 <= i < j < |s| ==> key(s[i]) <= key(s[j])
  }

  function Insert<T>(x: T, s: seq<T>, key: T -> int): seq<T> {
    if s == [] then [x]
    else if key(x) <= key(s[0]) then [x] + s
    else [s[0]] + Insert(x, s[1..], key)
  }

  /** Insertion sort; elements are inserted in front of the equal keys that follow them. */
  function SortBy<T>(s: seq<T>, key: T -> int): seq<T> {
    if s == [] then [] else Insert(s[0], SortBy(s[1..], key), key)
  }

  lemma {:induction false} InsertPermutation<T>(x: T, s: seq<T>, key: T -> int)
    ensures multiset(Insert(x, s, key)) == multiset(s) + multiset{x}
  {
    if s != [] && key(x) > key(s[0]) {
      InsertPermutation(x, s[1..], key);
      assert s == [s[0]] + s[1..];
    }
  }

  lemma {:induction false} InsertBounded<T>(x: T, s: seq<T>, key: T -> int, b: int)
    requires key(x) >= b
    requires forall i :: 0 <= i < |s| ==> key(s[i]) >= b
    ensures forall i :: 0 <= i < |Insert(x, s, key)| ==> key(Insert(x, s, key)[i]) >= b
  {
    if s != [] && key(x) > key(s[0]) {
      InsertBounded(x, s[1..], key, b);
    }
  }

  lemma {:induction false} InsertSorted<T>(x: T, s: seq<T>, key: T -> int)
    requires SortedBy(s, key)
    ensures SortedBy(Insert(x, s, key), key)
  {
    if s != [] && key(x) > key(s[0]) {
      var tail := s[1..];
      InsertSorted(x, tail, key);
      InsertBounded(x, tail, key, key(s[0]));
      var t := Insert(x, tail, key);
      var r := [s[0]] + t;
      forall i, j | 0 <= i < j < |r| ensures key(r[i]) <= key(r[j]) {
        assert r[j] == t[j - 1];
        if i > 0 {
          assert r[i] == t[i - 1];
        }
      }
    } else if s != [] {
      var r := [x] + s;
      forall i, j | 0 <= i < j < |r| ensures key(r[i]) <= key(r[j]) {
        assert r[j] == s[j - 1];
        if i > 0 {
          assert r[i] == s[i - 1];
        }
      }
    }
  }

  /** The sorted result is ordered by the key and holds exactly the input's elements. */
  lemma {:induction false} SortBySortedPermutation<T>(s: seq<T>, key: T -> int)
    ensures SortedBy(SortBy(s, key), key)
    ensures multiset(SortBy(s, key)) == multiset(s)
  {
    if s != [] {
      SortBySortedPermutation(s[1..], key);
      InsertSorted(s[0], SortBy(s[1..], key), key);
      InsertPermutation(s[0], SortBy(s[1..], key), key);
      assert s == [s[0]] + s[1..];
    }
  }

  /** Sorting neither adds nor drops elements. */
  lemma SortByElements<T>(s: seq<T>, key: T -> int)
    ensures |SortBy(s, key)| == |s|
    ensures forall i :: 0 <= i < |SortBy(s, key)| ==> SortBy(s, key)[i] in s
  {
    SortBySortedPermutation(s, key);
    var r := SortBy(s, key);
    assert |r| == |multiset(r)| == |multiset(s)| == |s|;
    forall i | 0 <= i < |r| ensures r[i] in s {
      assert r[i] in multiset(r);
    }
  }

  /** Every slice of a sorted sequence is sorted: paging keeps the sort order. */
  lemma SliceSorted<T>(s: seq<T>, key: T -> int, lo: nat, hi: nat)
    requires SortedBy(s, key) && lo <= hi <= |s|
    ensures SortedBy(s[lo..hi], key)
  {
    var r := s[lo..hi];
    forall i, j | 0 <= i < j < |r| ensures key(r[i]) <= key(r[j]) {
      assert r[i] == s[lo + i] && r[j] == s[lo + j];
    }
  }
}
