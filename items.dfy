/** Values stored in the collections, the exceptions the collections throw, and the
    sequence-level specification shared by every skip-list revision.

    The element type is the record used throughout the test suite: an integer `id`
    and a `name` payload.  `CompareTo` and `Equals` both look at `id` only, so
    two items can be ordering-equal and `Equals` while carrying different names. */
module Items {

  datatype Item = Item(id: int, name: string)

  /** `Comparer<T>.Default.Compare(a, b) < 0`. */
  predicate Less(a: Item, b: Item) { a.id < b.id }

  /** `a.Equals(b)`; also `Compare(a, b) == 0`. */
  predicate Equal(a: Item, b: Item) { a.id == b.id }

  /** The exceptions the collections throw, by .NET exception type. */
  datatype Error =
    | ArgumentNull        // ArgumentNullException
    | ArgumentOutOfRange  // ArgumentOutOfRangeException
    | Argument            // ArgumentException
    | KeyNotFound         // KeyNotFoundException
    | InvalidOperation    // InvalidOperationException
    | NullReference       // NullReferenceException (a null forward entry dereferenced)

  /** A reference that may be null. */
  datatype Option<T> = None | Some(value: T)

  /** A call that returns a value or throws. */
  datatype Result<T> = Ok(value: T) | Fail(error: Error)

  /** A void call that returns normally or throws. */
  datatype Outcome = Pass | Throw(error: Error)

  // ---------------------------------------------------------------------------
  // Order

  /** Non-decreasing by key: the order of a level-0 chain. */
  predicate Sorted(s: seq<Item>) {
    forall i, j :: 0 <= i < j < |s| ==> s[i].id <= s[j].id
  }

  /** Some stored element `Equals` `v`. */
  predicate HasKey(s: seq<Item>, v: Item) {
    exists j :: 0 <= j < |s| && Equal(s[j], v)
  }

  /** The position a search descent stops at: the index of the first element that
      is not less than `v` (`|s|` when every element is less). */
  function Ceiling(s: seq<Item>, v: Item): (k: nat)
    ensures k <= |s|
    ensures forall j :: 0 <= j < k ==> Less(s[j], v)
    ensures k < |s| ==> !Less(s[k], v)
  {
    if s == [] || !Less(s[0], v) then 0 else 1 + Ceiling(s[1..], v)
  }

  /** On a sorted sequence the descent's candidate `Equals` `v` exactly when some
      element does, so a probe that stops at the ceiling decides membership. */
  lemma CeilingDecidesMembership(s: seq<Item>, v: Item)
    requires Sorted(s)
    ensures (Ceiling(s, v) < |s| && Equal(s[Ceiling(s, v)], v)) <==> HasKey(s, v)
  {
    var k := Ceiling(s, v);
    if HasKey(s, v) {
      var j :| 0 <= j < |s| && Equal(s[j], v);
      assert k <= j;
      assert s[k].id <= s[j].id;
    }
  }

  /** On a sorted sequence, nothing at or beyond the ceiling is less than `v`. */
  lemma CeilingSplits(s: seq<Item>, v: Item, j: int)
    requires Sorted(s) && Ceiling(s, v) <= j < |s|
    ensures !Less(s[j], v)
  {
    assert s[Ceiling(s, v)].id <= s[j].id;
  }

  function InsertAt(s: seq<Item>, k: nat, v: Item): (r: seq<Item>)
    requires k <= |s|
  {
    s[..k] + [v] + s[k..]
  }

  function RemoveAt(s: seq<Item>, k: nat): (r: seq<Item>)
    requires k < |s|
  {
    s[..k] + s[k + 1..]
  }

  /** Splicing `v` anywhere adds exactly one occurrence of `v`. */
  lemma InsertAtCounts(s: seq<Item>, k: nat, v: Item)
    requires k <= |s|
    ensures multiset(InsertAt(s, k, v)) == multiset(s) + multiset{v}
  {
    assert s == s[..k] + s[k..];
  }

  /** Splicing `v` in front of the first element not less than it keeps the chain
      sorted. */
  lemma InsertAtCeiling(s: seq<Item>, v: Item)
    requires Sorted(s)
    ensures Sorted(InsertAt(s, Ceiling(s, v), v))
  {
    var k := Ceiling(s, v);
    var t := InsertAt(s, k, v);
    assert forall i :: 0 <= i < k ==> t[i] == s[i];
    assert t[k] == v;
    assert forall i :: k < i < |t| ==> t[i] == s[i - 1];
    forall i, j | 0 <= i < j < |t| ensures t[i].id <= t[j].id {
      if j == k {
        assert Less(s[i], v);
      } else if i == k {
        CeilingSplits(s, v, j - 1);
      } else if j < k {
        assert s[i].id <= s[j].id;
      } else if i < k {
        assert s[i].id <= s[j - 1].id;
      } else {
        assert s[i - 1].id <= s[j - 1].id;
      }
    }
  }

  /** Unlinking one element keeps the chain sorted. */
  lemma RemoveAtKeepsSorted(s: seq<Item>, k: nat)
    requires Sorted(s) && k < |s|
    ensures Sorted(RemoveAt(s, k))
  {
    var t := RemoveAt(s, k);
    forall i, j | 0 <= i < j < |t| ensures t[i].id <= t[j].id {
      assert t[i] == s[if i < k then i else i + 1];
      assert t[j] == s[if j < k then j else j + 1];
    }
  }

  // ---------------------------------------------------------------------------
  // Sorting (`OrderBy(x => x)`, modelled as a stable sort by key; PLINQ's is not stable)

  /** Stable insertion sort: each element goes in front of the equal keys that
      follow it in the input, so equal keys keep their input order. */
  function SortItems(s: seq<Item>): (r: seq<Item>)
    ensures Sorted(r)
    ensures multiset(r) == multiset(s)
    ensures |r| == |s|
  {
    if s == [] then []
    else
      var rest := SortItems(s[1..]);
      InsertAtCeiling(rest, s[0]);
      InsertAtCounts(rest, Ceiling(rest, s[0]), s[0]);
      assert s == [s[0]] + s[1..];
      InsertAt(rest, Ceiling(rest, s[0]), s[0])
  }

  /** Sorting an already sorted sequence changes nothing: with the stable sort
      that models `OrderBy`, the second `OrderBy` in bulk loading keeps the
      first one's order. */
  lemma {:induction false} SortSortedIsIdentity(s: seq<Item>)
    requires Sorted(s)
    ensures SortItems(s) == s
  {
    if s != [] {
      SortSortedIsIdentity(s[1..]);
      assert SortItems(s[1..]) == s[1..];
      assert Ceiling(s[1..], s[0]) == 0 by {
        if |s| > 1 { assert s[0].id <= s[1].id; }
      }
      assert s == [s[0]] + s[1..];
    }
  }

  // ---------------------------------------------------------------------------
  // Merging (bulk loading)

  /** The merge bulk loading performs: an existing element is kept in front of an
      incoming one only when it is strictly less, so incoming items land in front
      of stored items with the same key. */
  function Merge(a: seq<Item>, b: seq<Item>): (r: seq<Item>)
    ensures |r| == |a| + |b|
    ensures r != [] ==> (a != [] && r[0] == a[0]) || (b != [] && r[0] == b[0])
    decreases |a| + |b|
  {
    if a == [] then b
    else if b == [] then a
    else if Less(a[0], b[0]) then [a[0]] + Merge(a[1..], b)
    else [b[0]] + Merge(a, b[1..])
  }

  /** The merge of two sorted chains is sorted and holds exactly their elements. */
  lemma MergeSortedPermutation(a: seq<Item>, b: seq<Item>)
    requires Sorted(a) && Sorted(b)
    ensures Sorted(Merge(a, b))
    ensures multiset(Merge(a, b)) == multiset(a) + multiset(b)
  {
    MergeSorted(a, b);
    MergeCounts(a, b);
  }

  lemma {:induction false} MergeSorted(a: seq<Item>, b: seq<Item>)
    requires Sorted(a) && Sorted(b)
    ensures Sorted(Merge(a, b))
    decreases |a| + |b|
  {
    if a != [] && b != [] {
      if Less(a[0], b[0]) {
        MergeSorted(a[1..], b);
        var rest := Merge(a[1..], b);
        assert rest != [] ==> a[0].id <= rest[0].id by {
          if rest != [] && a[1..] != [] && rest[0] == a[1..][0] {
            assert a[0].id <= a[1].id;
          }
        }
        SortedCons(a[0], rest);
      } else {
        MergeSorted(a, b[1..]);
        var rest := Merge(a, b[1..]);
        assert rest != [] ==> b[0].id <= rest[0].id by {
          if rest != [] && b[1..] != [] && rest[0] == b[1..][0] {
            assert b[0].id <= b[1].id;
          }
        }
        SortedCons(b[0], rest);
      }
    }
  }

  lemma {:induction false} MergeCounts(a: seq<Item>, b: seq<Item>)
    ensures multiset(Merge(a, b)) == multiset(a) + multiset(b)
    decreases |a| + |b|
  {
    if a != [] && b != [] {
      if Less(a[0], b[0]) {
        MergeCounts(a[1..], b);
        assert Merge(a, b) == [a[0]] + Merge(a[1..], b);
        assert a == [a[0]] + a[1..];
        assert multiset(a) == multiset{a[0]} + multiset(a[1..]);
      } else {
        MergeCounts(a, b[1..]);
        assert Merge(a, b) == [b[0]] + Merge(a, b[1..]);
        assert b == [b[0]] + b[1..];
        assert multiset(b) == multiset{b[0]} + multiset(b[1..]);
      }
    }
  }

  /** A head no larger than the first element of a sorted sequence keeps it
      sorted. */
  lemma SortedCons(h: Item, s: seq<Item>)
    requires Sorted(s) && (s != [] ==> h.id <= s[0].id)
    ensures Sorted([h] + s)
  {
    var t := [h] + s;
    forall i, j | 0 <= i < j < |t| ensures t[i].id <= t[j].id {
      if i == 0 {
        assert t[j] == s[j - 1];
        assert s[0].id <= s[j - 1].id;
      } else {
        assert t[i] == s[i - 1] && t[j] == s[j - 1];
      }
    }
  }

  // ---------------------------------------------------------------------------
  // In-place update of matching entries

  /** Every element that `Equals` `v` replaced by `v`; nothing else touched.
      Every key stays where it was, and `v` is present afterwards exactly when
      its key was. */
  function ReplaceEqual(s: seq<Item>, v: Item): (r: seq<Item>)
    ensures |r| == |s|
    ensures forall j :: 0 <= j < |s| ==> r[j].id == s[j].id && (r[j] == v || r[j] == s[j])
    ensures v in r <==> HasKey(s, v)
  {
    seq(|s|, j requires 0 <= j < |s| => if Equal(s[j], v) then v else s[j])
  }

  /** Overwriting matches keeps every key, hence the order. */
  lemma ReplaceEqualKeepsKeys(s: seq<Item>, v: Item)
    requires Sorted(s)
    ensures |ReplaceEqual(s, v)| == |s|
    ensures forall j :: 0 <= j < |s| ==> ReplaceEqual(s, v)[j].id == s[j].id
    ensures Sorted(ReplaceEqual(s, v))
  {
  }

  /** With no element equal to `v` there is nothing to overwrite. */
  lemma ReplaceEqualMiss(s: seq<Item>, v: Item)
    requires !HasKey(s, v)
    ensures ReplaceEqual(s, v) == s
  {
    assert forall j :: 0 <= j < |s| ==> !Equal(s[j], v);
  }

  /** Overwriting twice is overwriting once. */
  lemma ReplaceEqualIdempotent(s: seq<Item>, v: Item)
    ensures ReplaceEqual(ReplaceEqual(s, v), v) == ReplaceEqual(s, v)
  {
  }

  /** After the overwrite, a probe with `v`'s key finds `v` itself: the descent
      stops at the same place and the element there is the new value. */
  lemma {:induction false} ReplaceEqualThenFind(s: seq<Item>, v: Item)
    requires Sorted(s) && HasKey(s, v)
    ensures Ceiling(ReplaceEqual(s, v), v) == Ceiling(s, v)
    ensures ReplaceEqual(s, v)[Ceiling(s, v)] == v
  {
    var r := ReplaceEqual(s, v);
    CeilingDecidesMembership(s, v);
    var k := Ceiling(s, v);
    assert forall j :: 0 <= j < k ==> Less(r[j], v) by {
      forall j | 0 <= j < k ensures Less(r[j], v) {
        assert r[j] == s[j];
      }
    }
    CeilingUnique(r, v, k);
  }

  /** The three clauses of `Ceiling`'s contract determine it. */
  lemma CeilingUnique(s: seq<Item>, v: Item, k: nat)
    requires k <= |s|
    requires forall j :: 0 <= j < k ==> Less(s[j], v)
    requires k < |s| ==> !Less(s[k], v)
    ensures Ceiling(s, v) == k
  {
  }
}
