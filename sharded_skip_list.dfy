/** The sharded skip list: a fixed row of independent skip lists and a
    caller-supplied shard function that sends every item to the shard with
    that index.  Each operation on one item is the same operation on the
    item's shard; the whole collection is the shards' contents one after the
    other. */
module ShardedSkipLists {
  import opened Items
  import opened SkipLists
  import opened ComparableSkipLists

  // ---------------------------------------------------------------------------
  // Sums and concatenations over the shards

  /** `Enumerable.Sum` over a sequence of counts. */
  function Sum(s: seq<int>): int {
    if s == [] then 0 else Sum(s[..|s| - 1]) + s[|s| - 1]
  }

  /** Changing one count changes the sum by the same amount. */
  lemma {:induction false} SumUpdate(s: seq<int>, i: nat, x: int)
    requires i < |s|
    ensures Sum(s[i := x]) == Sum(s) - s[i] + x
  {
    var n := |s| - 1;
    if i == n {
      assert s[i := x][..n] == s[..n];
    } else {
      assert s[i := x][..n] == s[..n][i := x];
      SumUpdate(s[..n], i, x);
    }
  }

  /** The sum of pointwise sums is the sum of the sums. */
  lemma {:induction false} SumAdd(a: seq<int>, b: seq<int>, c: seq<int>)
    requires |a| == |b| == |c|
    requires forall j :: 0 <= j < |c| ==> c[j] == a[j] + b[j]
    ensures Sum(c) == Sum(a) + Sum(b)
  {
    if c != [] {
      var n := |c| - 1;
      SumAdd(a[..n], b[..n], c[..n]);
    }
  }

  /** Counts that are all zero sum to zero. */
  lemma {:induction false} SumZero(s: seq<int>)
    requires forall j :: 0 <= j < |s| ==> s[j] == 0
    ensures Sum(s) == 0
  {
    if s != [] {
      SumZero(s[..|s| - 1]);
    }
  }

  /** `SelectMany`: the parts one after the other. */
  function Flatten(parts: seq<seq<Item>>): (r: seq<Item>) {
    if parts == [] then [] else Flatten(parts[..|parts| - 1]) + parts[|parts| - 1]
  }

  /** The concatenation is as long as the sum of the parts' lengths. */
  lemma {:induction false} FlattenLength(parts: seq<seq<Item>>, counts: seq<int>)
    requires |counts| == |parts|
    requires forall i :: 0 <= i < |parts| ==> counts[i] == |parts[i]|
    ensures Sum(counts) == |Flatten(parts)|
  {
    if parts != [] {
      var n := |parts| - 1;
      FlattenLength(parts[..n], counts[..n]);
    }
  }

  /** An item is in the concatenation exactly when it is in one of the parts. */
  lemma {:induction false} FlattenMember(parts: seq<seq<Item>>, x: Item)
    ensures x in Flatten(parts) <==> exists i :: 0 <= i < |parts| && x in parts[i]
  {
    if parts != [] {
      var n := |parts| - 1;
      FlattenMember(parts[..n], x);
      if x in Flatten(parts) && x !in parts[n] {
        var i :| 0 <= i < n && x in parts[..n][i];
        assert x in parts[i];
      }
      if exists i :: 0 <= i < |parts| && x in parts[i] {
        var i :| 0 <= i < |parts| && x in parts[i];
        if i < n {
          assert x in parts[..n][i];
        }
      }
    }
  }

  /** Empty parts concatenate to nothing. */
  lemma {:induction false} FlattenEmpty(parts: seq<seq<Item>>)
    requires forall i :: 0 <= i < |parts| ==> parts[i] == []
    ensures Flatten(parts) == []
  {
    if parts != [] {
      FlattenEmpty(parts[..|parts| - 1]);
    }
  }

  // ---------------------------------------------------------------------------
  // Grouping by shard key (`GroupBy(_shardFunction).OrderBy(group => group.Key)`)

  /** The items of `s` whose key is `key`, in their order in `s`. */
  function Group(s: seq<Item>, f: Item -> int, key: int): (r: seq<Item>) {
    if s == [] then []
    else (if f(s[0]) == key then [s[0]] else []) + Group(s[1..], f, key)
  }

  /** A group holds exactly the items of `s` with its key. */
  lemma {:induction false} GroupMember(s: seq<Item>, f: Item -> int, key: int, x: Item)
    ensures x in Group(s, f, key) <==> x in s && f(x) == key
  {
    if s != [] {
      GroupMember(s[1..], f, key, x);
      assert s == [s[0]] + s[1..];
    }
  }

  predicate Increasing(ks: seq<int>) {
    forall u, v :: 0 <= u < v < |ks| ==> ks[u] < ks[v]
  }

  /** Adds `k` to a strictly increasing sequence of keys. */
  function InsertKey(ks: seq<int>, k: int): seq<int> {
    if ks == [] then [k]
    else if k < ks[0] then [k] + ks
    else if k == ks[0] then ks
    else [ks[0]] + InsertKey(ks[1..], k)
  }

  lemma {:induction false} InsertKeyFacts(ks: seq<int>, k: int)
    requires Increasing(ks)
    ensures Increasing(InsertKey(ks, k))
    ensures forall m :: m in InsertKey(ks, k) <==> m in ks || m == k
  {
    if ks != [] && k > ks[0] {
      InsertKeyFacts(ks[1..], k);
      var t := InsertKey(ks[1..], k);
      assert ks == [ks[0]] + ks[1..];
      forall m | m in t ensures ks[0] < m {
        if m != k {
          var v :| 0 <= v < |ks[1..]| && ks[1..][v] == m;
          assert ks[0] < ks[v + 1];
        }
      }
    }
  }

  /** The distinct keys of `s` in ascending order. */
  function Keys(s: seq<Item>, f: Item -> int): (ks: seq<int>) {
    if s == [] then [] else InsertKey(Keys(s[1..], f), f(s[0]))
  }

  /** The keys are strictly increasing and are exactly the keys of non-empty
      groups. */
  lemma {:induction false} KeysFacts(s: seq<Item>, f: Item -> int)
    ensures Increasing(Keys(s, f))
    ensures forall k :: k in Keys(s, f) <==> |Group(s, f, k)| > 0
  {
    if s != [] {
      KeysFacts(s[1..], f);
      InsertKeyFacts(Keys(s[1..], f), f(s[0]));
    }
  }

  /** Every item of `s` has a key in `[0, n)`. */
  predicate AllIn(s: seq<Item>, f: Item -> int, n: int) {
    forall x :: x in s ==> 0 <= f(x) < n
  }

  /** No item of `s` has a negative key. */
  predicate NoneNegative(s: seq<Item>, f: Item -> int) {
    forall x :: x in s ==> 0 <= f(x)
  }

  /** The sizes of the groups with keys `0 .. n - 1`. */
  function GroupSizes(s: seq<Item>, f: Item -> int, n: nat): seq<int> {
    seq(n, j => |Group(s, f, j)|)
  }

  /** When every key is a shard index, the groups together hold every item. */
  lemma {:induction false} GroupSizesSum(s: seq<Item>, f: Item -> int, n: nat)
    requires AllIn(s, f, n)
    ensures Sum(GroupSizes(s, f, n)) == |s|
  {
    if s == [] {
      SumZero(GroupSizes(s, f, n));
    } else {
      var k := f(s[0]);
      var rest := GroupSizes(s[1..], f, n);
      assert s == [s[0]] + s[1..];
      assert AllIn(s[1..], f, n) by {
        forall x | x in s[1..] ensures 0 <= f(x) < n {
          assert x in s;
        }
      }
      GroupSizesSum(s[1..], f, n);
      assert GroupSizes(s, f, n) == rest[k := rest[k] + 1];
      SumUpdate(rest, k, rest[k] + 1);
    }
  }

  /** The keys are exactly the keys of the items. */
  lemma KeysOfItems(s: seq<Item>, f: Item -> int)
    ensures Increasing(Keys(s, f))
    ensures forall k :: k in Keys(s, f) <==> exists x :: x in s && f(x) == k
  {
    KeysFacts(s, f);
    forall k | k in Keys(s, f) ensures exists x :: x in s && f(x) == k {
      var x := Group(s, f, k)[0];
      GroupMember(s, f, k, x);
    }
    forall x | x in s ensures f(x) in Keys(s, f) {
      GroupMember(s, f, f(x), x);
    }
  }

  /** The grouped insertion handles every key exactly when every key is a
      shard index. */
  lemma StopAll(s: seq<Item>, f: Item -> int, n: nat, t: nat)
    requires t <= |Keys(s, f)|
    requires forall u :: 0 <= u < t ==> 0 <= Keys(s, f)[u] < n
    requires t < |Keys(s, f)| ==> !(0 <= Keys(s, f)[t] < n)
    ensures t == |Keys(s, f)| <==> AllIn(s, f, n)
  {
    var ks := Keys(s, f);
    KeysOfItems(s, f);
    if t < |ks| {
      assert ks[t] in ks;
    } else {
      forall x | x in s ensures 0 <= f(x) < n {
        assert f(x) in ks;
      }
    }
  }

  /** Shard `j` has been filled exactly when no key is negative and its
      group is not empty. */
  lemma StopFilled(s: seq<Item>, f: Item -> int, n: nat, t: nat, j: int)
    requires t <= |Keys(s, f)|
    requires forall u :: 0 <= u < t ==> 0 <= Keys(s, f)[u] < n
    requires t < |Keys(s, f)| ==> !(0 <= Keys(s, f)[t] < n)
    requires 0 <= j < n
    ensures j in Keys(s, f)[..t] <==> NoneNegative(s, f) && |Group(s, f, j)| > 0
  {
    var ks := Keys(s, f);
    KeysFacts(s, f);
    if j in ks[..t] {
      assert |ks[..t]| > 0;
      assert 0 <= ks[0] < n;
      assert j in ks;
      FirstKeyBounds(s, f);
    }
    if NoneNegative(s, f) && |Group(s, f, j)| > 0 {
      if t < |ks| {
        KeysOfItems(s, f);
        assert ks[t] in ks;
        var x :| x in s && f(x) == ks[t];
      }
      FilledBeforeStop(ks, n, t, j);
    }
  }

  /** When the smallest key is not negative, no key is. */
  lemma FirstKeyBounds(s: seq<Item>, f: Item -> int)
    requires |Keys(s, f)| > 0 && 0 <= Keys(s, f)[0]
    ensures NoneNegative(s, f)
  {
    var ks := Keys(s, f);
    KeysOfItems(s, f);
    forall x | x in s ensures 0 <= f(x) {
      assert f(x) in ks;
      var u :| 0 <= u < |ks| && ks[u] == f(x);
      assert ks[0] <= ks[u];
    }
  }

  /** In increasing keys whose first `t` are below `n` and whose next one is
      not, every key in `[0, n)` is among the first `t`. */
  lemma FilledBeforeStop(ks: seq<int>, n: nat, t: nat, j: int)
    requires Increasing(ks) && t <= |ks| && j in ks && 0 <= j < n
    requires forall u :: 0 <= u < t ==> 0 <= ks[u] < n
    requires t < |ks| ==> !(0 <= ks[t] < n)
    requires t < |ks| ==> 0 <= ks[t]
    ensures j in ks[..t]
  {
    var u :| 0 <= u < |ks| && ks[u] == j;
    if t < |ks| {
      assert n <= ks[t];
    }
    assert u < t;
    assert ks[..t][u] == j;
  }

  /** Where the grouped insertion stops: it has handled the keys `ks[..t]`,
      all shard indexes, and either handled every key or met one that is not a
      shard index.  Then it has handled every key exactly when no key is
      negative, and the shards it has filled are exactly those with a
      non-empty group, provided no key is negative. */
  lemma StopFacts(s: seq<Item>, f: Item -> int, n: nat, t: nat)
    requires t <= |Keys(s, f)|
    requires forall u :: 0 <= u < t ==> 0 <= Keys(s, f)[u] < n
    requires t < |Keys(s, f)| ==> !(0 <= Keys(s, f)[t] < n)
    ensures t == |Keys(s, f)| <==> AllIn(s, f, n)
    ensures forall j :: 0 <= j < n ==>
              (j in Keys(s, f)[..t] <==> NoneNegative(s, f) && |Group(s, f, j)| > 0)
  {
    StopAll(s, f, n, t);
    forall j | 0 <= j < n
      ensures j in Keys(s, f)[..t] <==> NoneNegative(s, f) && |Group(s, f, j)| > 0
    {
      StopFilled(s, f, n, t, j);
    }
  }

  /** Where `AddRange`'s loop over the ordered keys `ks` stops: at the first
      key that is not a shard index below `n` or that names a shard in
      `dangling`, whose `AddRange` throws, or at the end. */
  function StopAt(ks: seq<int>, n: int, dangling: set<int>): (t: nat)
    ensures t <= |ks|
    ensures forall u :: 0 <= u < t ==> 0 <= ks[u] < n && ks[u] !in dangling
    ensures t < |ks| ==> !(0 <= ks[t] < n) || ks[t] in dangling
    decreases |ks|
  {
    if ks == [] || !(0 <= ks[0] < n) || ks[0] in dangling then 0
    else 1 + StopAt(ks[1..], n, dangling)
  }

  /** The loop runs through every key exactly when every item's key is a
      shard index naming a shard outside `dangling`. */
  lemma StopAtAll(s: seq<Item>, f: Item -> int, n: int, dangling: set<int>)
    ensures StopAt(Keys(s, f), n, dangling) == |Keys(s, f)| <==>
              AllIn(s, f, n) && forall x :: x in s ==> f(x) !in dangling
  {
    var ks := Keys(s, f);
    var t := StopAt(ks, n, dangling);
    KeysOfItems(s, f);
    if t < |ks| {
      assert ks[t] in ks;
    } else {
      KeysFacts(s, f);
      forall x | x in s ensures 0 <= f(x) < n && f(x) !in dangling {
        GroupMember(s, f, f(x), x);
        assert f(x) in ks;
      }
    }
  }

  /** A negative key comes first, so the loop stops before merging anything. */
  lemma StopAtNegative(parts: seq<seq<Item>>, s: seq<Item>, f: Item -> int, n: int, dangling: set<int>)
    requires !NoneNegative(s, f)
    ensures |Keys(s, f)| > 0 && Keys(s, f)[0] < 0
    ensures StopAt(Keys(s, f), n, dangling) == 0
    ensures MergeSome(parts, s, f, Keys(s, f)[..0]) == parts
  {
    var ks := Keys(s, f);
    KeysOfItems(s, f);
    var x :| x in s && f(x) < 0;
    KeysFacts(s, f);
    GroupMember(s, f, f(x), x);
    assert f(x) in ks;
    if 0 <= ks[0] {
      FirstKeyBounds(s, f);
    }
  }

  /** What `AddRange`'s loop has done once it stops at `t` with outcome `r`:
      `t` is where `StopAt` says, the outcome is a success exactly when every
      key leads to a shard that is not dangling, a negative key leaves every
      shard as it was, and without dangling shards or on success the shards
      are as `GroupsDone` describes. */
  lemma LoopStopped(parts: seq<seq<Item>>, s: seq<Item>, f: Item -> int, dangling: set<int>, t: nat, r: Outcome)
    requires t <= |Keys(s, f)|
    requires forall u :: 0 <= u < t ==> 0 <= Keys(s, f)[u] < |parts| && Keys(s, f)[u] !in dangling
    requires t == |Keys(s, f)| ==> r == Pass
    requires t < |Keys(s, f)| ==>
               var key := Keys(s, f)[t];
               (!(0 <= key < |parts|) || key in dangling) &&
               r == Throw(if 0 <= key < |parts| then NullReference else ArgumentOutOfRange)
    ensures t == StopAt(Keys(s, f), |parts|, dangling)
    ensures r == Pass <==> AllIn(s, f, |parts|) && forall x :: x in s ==> f(x) !in dangling
    ensures !NoneNegative(s, f) ==> r == Throw(ArgumentOutOfRange) && MergeSome(parts, s, f, Keys(s, f)[..t]) == parts
    ensures dangling == {} ==>
              MergeSome(parts, s, f, Keys(s, f)[..t]) == if NoneNegative(s, f) then MergeGroups(parts, s, f) else parts
    ensures r == Pass ==>
              MergeSome(parts, s, f, Keys(s, f)[..t]) == MergeGroups(parts, s, f) &&
              |Flatten(MergeGroups(parts, s, f))| == |Flatten(parts)| + |s|
  {
    var ks := Keys(s, f);
    var stop := StopAt(ks, |parts|, dangling);
    assert t == stop;
    StopAtAll(s, f, |parts|, dangling);
    if !NoneNegative(s, f) {
      StopAtNegative(parts, s, f, |parts|, dangling);
    }
    if dangling == {} || r == Pass {
      GroupsDone(parts, s, f, t);
    }
    if r == Pass {
      MergeGroupsLength(parts, s, f);
    }
  }

  /** Every shard's contents with its group merged in. */
  function MergeGroups(parts: seq<seq<Item>>, s: seq<Item>, f: Item -> int): (r: seq<seq<Item>>)
    ensures |r| == |parts|
  {
    seq(|parts|, j requires 0 <= j < |parts| => Merge(parts[j], SortItems(Group(s, f, j))))
  }

  /** The shards' contents once the groups with keys in `done` are merged in. */
  function MergeSome(parts: seq<seq<Item>>, s: seq<Item>, f: Item -> int, done: seq<int>): (r: seq<seq<Item>>)
    ensures |r| == |parts|
  {
    seq(|parts|, j requires 0 <= j < |parts| =>
                   if j in done then Merge(parts[j], SortItems(Group(s, f, j))) else parts[j])
  }

  /** Adding the next group changes only its own shard, and keeps every item
      in place. */
  lemma GroupStep(parts: seq<seq<Item>>, s: seq<Item>, f: Item -> int,
                  ks: seq<int>, t: nat)
    requires ks == Keys(s, f) && t < |ks| && 0 <= ks[t] < |parts|
    requires PlacedIn(MergeSome(parts, s, f, ks[..t]), f)
    ensures var before, key := MergeSome(parts, s, f, ks[..t]), ks[t];
            before[key] == parts[key] &&
            MergeSome(parts, s, f, ks[..t + 1]) ==
              before[key := Merge(before[key], SortItems(Group(s, f, key)))] &&
            PlacedIn(MergeSome(parts, s, f, ks[..t + 1]), f)
  {
    MergeSomeStep(parts, s, f, ks, t);
    MergeInPlaced(MergeSome(parts, s, f, ks[..t]), s, f, ks[t]);
  }

  /** Adding the group with the next key merges it into its own shard, which
      held its original contents until then. */
  lemma MergeSomeStep(parts: seq<seq<Item>>, s: seq<Item>, f: Item -> int, ks: seq<int>, t: nat)
    requires ks == Keys(s, f) && t < |ks| && 0 <= ks[t] < |parts|
    ensures var before, key := MergeSome(parts, s, f, ks[..t]), ks[t];
            before[key] == parts[key] &&
            MergeSome(parts, s, f, ks[..t + 1]) ==
              before[key := Merge(before[key], SortItems(Group(s, f, key)))]
  {
    KeysFacts(s, f);
    NextKeyIsNew(ks, t);
    PrefixStep(ks, t);
    MergeOneMore(parts, s, f, ks[..t], ks[..t + 1], ks[t]);
  }

  /** The first `t + 1` keys are the first `t` and the `t + 1`-th. */
  lemma PrefixStep(ks: seq<int>, t: nat)
    requires t < |ks|
    ensures forall j :: j in ks[..t + 1] <==> j in ks[..t] || j == ks[t]
  {
    assert ks[..t + 1] == ks[..t] + [ks[t]];
  }

  /** In a strictly increasing sequence the `t + 1`-th element is not among the
      first `t`. */
  lemma NextKeyIsNew(ks: seq<int>, t: nat)
    requires Increasing(ks) && t < |ks|
    ensures ks[t] !in ks[..t]
  {
  }

  /** Merging one more group, whose key was not merged yet, changes only its
      own shard. */
  lemma MergeOneMore(parts: seq<seq<Item>>, s: seq<Item>, f: Item -> int,
                     done: seq<int>, done': seq<int>, key: int)
    requires 0 <= key < |parts| && key !in done
    requires forall j :: j in done' <==> j in done || j == key
    ensures var before := MergeSome(parts, s, f, done);
            before[key] == parts[key] &&
            MergeSome(parts, s, f, done') == before[key := Merge(before[key], SortItems(Group(s, f, key)))]
  {
    var before := MergeSome(parts, s, f, done);
    var merged := before[key := Merge(before[key], SortItems(Group(s, f, key)))];
    assert forall j :: 0 <= j < |parts| ==> MergeSome(parts, s, f, done')[j] == merged[j];
  }

  /** Merging the group with key `key` into shard `key` keeps every item in
      place. */
  lemma MergeInPlaced(parts: seq<seq<Item>>, s: seq<Item>, f: Item -> int, key: int)
    requires PlacedIn(parts, f) && 0 <= key < |parts|
    ensures PlacedIn(parts[key := Merge(parts[key], SortItems(Group(s, f, key)))], f)
  {
    var group := Group(s, f, key);
    forall x | x in Merge(parts[key], SortItems(group))
      ensures x in parts[key] || f(x) == key
    {
      MergeMembers(parts[key], group, x);
      GroupMember(s, f, key, x);
    }
    PlacedUpdate(parts, f, key, Merge(parts[key], SortItems(group)));
  }

  /** Once the loop stops: with no negative key the merged shards are every
      shard with its group merged in, otherwise nothing was merged. */
  lemma GroupsDone(parts: seq<seq<Item>>, s: seq<Item>, f: Item -> int, t: nat)
    requires t <= |Keys(s, f)|
    requires forall u :: 0 <= u < t ==> 0 <= Keys(s, f)[u] < |parts|
    requires t < |Keys(s, f)| ==> !(0 <= Keys(s, f)[t] < |parts|)
    ensures NoneNegative(s, f) ==> MergeSome(parts, s, f, Keys(s, f)[..t]) == MergeGroups(parts, s, f)
    ensures !NoneNegative(s, f) ==> MergeSome(parts, s, f, Keys(s, f)[..t]) == parts
  {
    var ks := Keys(s, f);
    StopFacts(s, f, |parts|, t);
    if NoneNegative(s, f) {
      forall j | 0 <= j < |parts| && j !in ks[..t]
        ensures parts[j] == Merge(parts[j], SortItems(Group(s, f, j)))
      {
        assert Group(s, f, j) == [];
      }
    }
  }

  /** When every key is a shard index, merging every group into its shard
      adds every item of `s` to the concatenation. */
  lemma MergeGroupsLength(parts: seq<seq<Item>>, s: seq<Item>, f: Item -> int)
    requires AllIn(s, f, |parts|)
    ensures |Flatten(MergeGroups(parts, s, f))| == |Flatten(parts)| + |s|
  {
    var merged := MergeGroups(parts, s, f);
    var before := seq(|parts|, j requires 0 <= j < |parts| => |parts[j]|);
    var sizes := GroupSizes(s, f, |parts|);
    var after := seq(|parts|, j requires 0 <= j < |parts| => |merged[j]|);
    forall j | 0 <= j < |parts| ensures after[j] == before[j] + sizes[j] {
      assert merged[j] == Merge(parts[j], SortItems(Group(s, f, j)));
    }
    SumAdd(before, sizes, after);
    GroupSizesSum(s, f, |parts|);
    FlattenLength(parts, before);
    FlattenLength(merged, after);
  }

  // ---------------------------------------------------------------------------
  // Placement of items in shards

  /** Every item is stored in the shard its key names. */
  predicate PlacedIn(parts: seq<seq<Item>>, f: Item -> int) {
    forall i, x :: 0 <= i < |parts| && x in parts[i] ==> f(x) == i
  }

  /** Replacing one shard's contents by items that are old or belong there
      keeps every item in place. */
  lemma PlacedUpdate(parts: seq<seq<Item>>, f: Item -> int, i: nat, part: seq<Item>)
    requires PlacedIn(parts, f) && i < |parts|
    requires forall x :: x in part ==> x in parts[i] || f(x) == i
    ensures PlacedIn(parts[i := part], f)
  {
  }

  /** Inserting an item into the shard its key names keeps every item in place. */
  lemma InsertPlaced(parts: seq<seq<Item>>, f: Item -> int, i: nat, k: nat, v: Item)
    requires PlacedIn(parts, f) && i < |parts| && k <= |parts[i]| && f(v) == i
    ensures PlacedIn(parts[i := InsertAt(parts[i], k, v)], f)
  {
    forall x | x in InsertAt(parts[i], k, v) ensures x in parts[i] || f(x) == i {
      InsertMembers(parts[i], k, v, x);
    }
    PlacedUpdate(parts, f, i, InsertAt(parts[i], k, v));
  }

  /** Removing an item keeps every other item in place. */
  lemma RemovePlaced(parts: seq<seq<Item>>, f: Item -> int, i: nat, k: nat)
    requires PlacedIn(parts, f) && i < |parts| && k < |parts[i]|
    ensures PlacedIn(parts[i := RemoveAt(parts[i], k)], f)
  {
    forall x | x in RemoveAt(parts[i], k) ensures x in parts[i] {
      RemoveMembers(parts[i], k, x);
    }
    PlacedUpdate(parts, f, i, RemoveAt(parts[i], k));
  }

  /** Merging a sorted group into a shard adds exactly the group's items. */
  lemma MergeMembers(a: seq<Item>, g: seq<Item>, x: Item)
    requires x in Merge(a, SortItems(g))
    ensures x in a || x in g
  {
    MergeCounts(a, SortItems(g));
    assert x in multiset(Merge(a, SortItems(g)));
  }

  /** An inserted item is the only new one. */
  lemma InsertMembers(s: seq<Item>, k: nat, v: Item, x: Item)
    requires k <= |s| && x in InsertAt(s, k, v)
    ensures x in s || x == v
  {
    InsertAtCounts(s, k, v);
    assert x in multiset(InsertAt(s, k, v));
  }

  /** Removing adds nothing. */
  lemma RemoveMembers(s: seq<Item>, k: nat, x: Item)
    requires k < |s| && x in RemoveAt(s, k)
    ensures x in s
  {
    assert s == s[..k] + [s[k]] + s[k + 1..];
  }

  /** An overwrite brings in only the new value. */
  lemma ReplaceMembers(s: seq<Item>, v: Item, x: Item)
    requires x in ReplaceEqual(s, v)
    ensures x in s || x == v
  {
    var j :| 0 <= j < |ReplaceEqual(s, v)| && ReplaceEqual(s, v)[j] == x;
    assert Equal(s[j], v) ==> x == v;
  }

  // ---------------------------------------------------------------------------
  // Array cells (`T[]` over a reference type: a cell may hold null)

  /** `Comparer<T>.Default` on cells: null comes before every item, and items
      are ordered by key. */
  predicate CellLeq(a: Option<Item>, b: Option<Item>) {
    a.None? || (b.Some? && a.value.id <= b.value.id)
  }

  /** The order `Array.Sort` leaves: every null first, then the items by key. */
  predicate CellsSorted(c: seq<Option<Item>>) {
    forall i, j :: 0 <= i < j < |c| ==> CellLeq(c[i], c[j])
  }

  /** Each item as a non-null cell. */
  function Cells(s: seq<Item>): (c: seq<Option<Item>>)
    ensures |c| == |s|
  {
    if s == [] then [] else [Some(s[0])] + Cells(s[1..])
  }

  /** `n` null cells. */
  function Nulls(n: nat): (c: seq<Option<Item>>)
    ensures |c| == n
  {
    if n == 0 then [] else [None] + Nulls(n - 1)
  }

  /** The items held by the non-null cells, in order. */
  function Payloads(c: seq<Option<Item>>): seq<Item> {
    if c == [] then [] else (if c[0].Some? then [c[0].value] else []) + Payloads(c[1..])
  }

  /** The number of null cells. */
  function NullCount(c: seq<Option<Item>>): nat {
    if c == [] then 0 else (if c[0].None? then 1 else 0) + NullCount(c[1..])
  }

  /** A sort of the cells: the nulls, then the items sorted by key. */
  function SortCells(c: seq<Option<Item>>): seq<Option<Item>> {
    Nulls(NullCount(c)) + Cells(SortItems(Payloads(c)))
  }

  lemma {:induction false} CellsIndex(s: seq<Item>)
    ensures forall i :: 0 <= i < |s| ==> Cells(s)[i] == Some(s[i])
  {
    if s != [] {
      CellsIndex(s[1..]);
      forall i | 1 <= i < |s| ensures Cells(s)[i] == Some(s[i]) {
        assert Cells(s)[i] == Cells(s[1..])[i - 1];
      }
    }
  }

  lemma {:induction false} NullsIndex(n: nat)
    ensures forall i :: 0 <= i < n ==> Nulls(n)[i] == None
  {
    if n > 0 {
      NullsIndex(n - 1);
      forall i | 1 <= i < n ensures Nulls(n)[i] == None {
        assert Nulls(n)[i] == Nulls(n - 1)[i - 1];
      }
    }
  }

  /** Splitting the cells into nulls and items distributes over
      concatenation. */
  lemma {:induction false} SplitAppend(a: seq<Option<Item>>, b: seq<Option<Item>>)
    ensures NullCount(a + b) == NullCount(a) + NullCount(b)
    ensures Payloads(a + b) == Payloads(a) + Payloads(b)
  {
    if a != [] {
      SplitAppend(a[1..], b);
      assert (a + b)[1..] == a[1..] + b;
    } else {
      assert a + b == b;
    }
  }

  /** Null cells hold no item. */
  lemma {:induction false} SplitNulls(n: nat)
    ensures NullCount(Nulls(n)) == n && Payloads(Nulls(n)) == []
  {
    if n > 0 {
      SplitNulls(n - 1);
    }
  }

  /** The cells of some items are non-null and hold exactly those items. */
  lemma {:induction false} SplitCells(s: seq<Item>)
    ensures NullCount(Cells(s)) == 0 && Payloads(Cells(s)) == s
  {
    if s != [] {
      SplitCells(s[1..]);
      assert s == [s[0]] + s[1..];
    }
  }

  /** Sorting the cells puts them in `Array.Sort`'s order, keeps the number
      of nulls and permutes the items. */
  lemma SortCellsSorted(c: seq<Option<Item>>)
    ensures CellsSorted(SortCells(c))
    ensures NullCount(SortCells(c)) == NullCount(c)
    ensures multiset(Payloads(SortCells(c))) == multiset(Payloads(c))
    ensures |SortCells(c)| == NullCount(c) + |Payloads(c)|
  {
    NullsThenSorted(NullCount(c), SortItems(Payloads(c)));
    SplitAppend(Nulls(NullCount(c)), Cells(SortItems(Payloads(c))));
    SplitNulls(NullCount(c));
    SplitCells(SortItems(Payloads(c)));
  }

  /** Null cells followed by the cells of sorted items are in `Array.Sort`'s
      order. */
  lemma NullsThenSorted(n: nat, items: seq<Item>)
    requires Sorted(items)
    ensures CellsSorted(Nulls(n) + Cells(items))
  {
    var nulls, t := Nulls(n), Nulls(n) + Cells(items);
    CellsIndex(items);
    NullsIndex(n);
    forall i, j | 0 <= i < j < |t| ensures CellLeq(t[i], t[j]) {
      if i >= n {
        assert t[i] == Some(items[i - n]) && t[j] == Some(items[j - n]);
      } else {
        assert t[i] == None;
      }
    }
  }

  /** The cells hold their nulls and their items and nothing else. */
  lemma {:induction false} CellsLength(c: seq<Option<Item>>)
    ensures |c| == NullCount(c) + |Payloads(c)|
  {
    if c != [] {
      CellsLength(c[1..]);
    }
  }

  /** What `List<T>.CopyTo(array, arrayIndex)` followed by `Array.Sort(array)`
      leaves in an array that held `cells`: the same number of cells, in
      `Array.Sort`'s order, holding the null cells that were outside the
      copied range and, as items, those of the cells outside it together with
      `items`. */
  ghost predicate SortedCopy(cells: seq<Option<Item>>, items: seq<Item>, at: nat, sorted: seq<Option<Item>>)
    requires at + |items| <= |cells|
  {
    var before, after := cells[..at], cells[at + |items|..];
    |sorted| == |cells| && CellsSorted(sorted) &&
    NullCount(sorted) == NullCount(before) + NullCount(after) &&
    multiset(Payloads(sorted)) == multiset(Payloads(before)) + multiset(items) + multiset(Payloads(after))
  }

  /** `List<T>.CopyTo(array, arrayIndex)` followed by `Array.Sort(array)`: the
      items are copied from `arrayIndex` on, then the whole array is sorted,
      null cells first.  Afterwards the array holds the null cells that were
      left outside the copied range and, in key order, the items found there
      together with the copied ones.  `Array.Sort` is not stable, so only the
      sorted order and the multiset of items are promised. */
  method CopySorted(items: seq<Item>, target: array?<Option<Item>>, arrayIndex: int) returns (r: Outcome)
    modifies target
    ensures target == null ==> r == Throw(ArgumentNull)
    ensures target != null && arrayIndex < 0 ==> r == Throw(ArgumentOutOfRange) && unchanged(target)
    ensures target != null && arrayIndex >= 0 && target.Length - arrayIndex < |items| ==>
              r == Throw(Argument) && unchanged(target)
    ensures target != null && arrayIndex >= 0 && target.Length - arrayIndex >= |items| ==>
              r == Pass && SortedCopy(old(target[..]), items, arrayIndex, target[..])
  {
    if target == null {
      return Throw(ArgumentNull);
    }
    if arrayIndex < 0 {
      return Throw(ArgumentOutOfRange);
    }
    if target.Length - arrayIndex < |items| {
      return Throw(Argument);
    }
    ghost var before, after := target[..arrayIndex], target[arrayIndex + |items|..];
    var copied := target[..arrayIndex] + Cells(items) + target[arrayIndex + |items|..];
    CopiedSplit(before, items, after);
    var sorted := SortCells(copied);
    SortCellsSorted(copied);
    CellsLength(copied);
    forall q | 0 <= q < target.Length {
      target[q] := sorted[q];
    }
    assert target[..] == sorted;
    r := Pass;
  }

  /** The cells `before + Cells(items) + after` hold the nulls of `before` and
      `after`, and the items of all three in order. */
  lemma CopiedSplit(before: seq<Option<Item>>, items: seq<Item>, after: seq<Option<Item>>)
    ensures NullCount(before + Cells(items) + after) == NullCount(before) + NullCount(after)
    ensures Payloads(before + Cells(items) + after) == Payloads(before) + items + Payloads(after)
  {
    SplitAppend(before, Cells(items));
    SplitAppend(before + Cells(items), after);
    SplitCells(items);
  }

  /** The loop of `Clear`: `shard.Clear()` for every shard in turn. */
  method ClearAll(shards: seq<SkipList>)
    requires forall i, j :: 0 <= i < j < |shards| ==> shards[i] != shards[j]
    modifies shards
    ensures forall i :: 0 <= i < |shards| ==> shards[i].Valid() && shards[i].IsFresh()
  {
    for i := 0 to |shards|
      invariant forall j :: 0 <= j < i ==> shards[j].Valid() && shards[j].IsFresh()
    {
      assert forall j :: 0 <= j < i ==> shards[j] != shards[i];
      shards[i].Clear();
    }
  }

  // ---------------------------------------------------------------------------
  // The sharded list

  class ShardedSkipList {
    /** `_shards`: the list of shards, fixed at construction. */
    const shards: seq<SkipList>
    /** `_shardFunction`. */
    const shardFunction: Item -> int
    /** Each shard's contents, in shard order. */
    ghost var parts: seq<seq<Item>>

    /** The shards are distinct objects. */
    predicate Separate() {
      forall i, j :: 0 <= i < j < |shards| ==> shards[i] != shards[j]
    }

    /** Every shard is a valid skip list holding its part. */
    ghost predicate ShardsHold()
      reads this, shards
    {
      |parts| == |shards| &&
      forall i {:trigger shards[i].Valid()} {:trigger parts[i]} :: 0 <= i < |shards| ==>
        shards[i].Valid() && parts[i] == shards[i].Contents()
    }

    /** At least one shard, the shards distinct valid skip lists, and every
        item in the shard its key names. */
    ghost predicate Valid()
      reads this, shards
    {
      |shards| >= 1 && Separate() && ShardsHold() && PlacedIn(parts, shardFunction)
    }

    /** The items in enumeration order: shard 0's, then shard 1's, and so on. */
    ghost function Elements(): seq<Item>
      reads this
    {
      Flatten(parts)
    }

    /** Each shard's `Count`. */
    function Counts(): (counts: seq<int>)
      reads shards
      ensures |counts| == |shards|
      ensures forall i :: 0 <= i < |shards| ==> counts[i] == shards[i].count
    {
      seq(|shards|, i requires 0 <= i < |shards| reads shards => shards[i].count)
    }

    /** `Count => _shards.Sum(s => s.Count)`: while the shards are valid,
        the number of enumerated elements. */
    function Count(): (c: int)
      reads this, shards
      ensures Valid() ==> c == |Elements()|
    {
      assert Valid() ==> Sum(Counts()) == |Elements()| by {
        if Valid() {
          FlattenLength(parts, Counts());
        }
      }
      Sum(Counts())
    }

    /** `_shardFunction(value)` is an index into `_shards` (otherwise the list
        indexer throws `ArgumentOutOfRangeException`). */
    predicate InRange(value: Item) {
      0 <= shardFunction(value) < |shards|
    }

    /** The shards whose last node holds the null entry that `Remove` leaves
        when it unlinks the last node. */
    ghost function DanglingShards(): set<int>
      requires Valid()
      reads this, shards
    {
      set j | 0 <= j < |shards| && shards[j].Dangling()
    }

    /** An item is in the collection exactly when it is in the shard its key
        names: lookups need search only that shard. */
    lemma PlacedLookup(x: Item)
      requires Valid()
      ensures x in Elements() <==> InRange(x) && x in parts[shardFunction(x)]
    {
      FlattenMember(parts, x);
    }

    /** When only shard `i` changed, and `parts` records its new contents
        with every item still in place, the invariant holds again and only
        shard `i`'s count changed; when shard `i` dangles as before, so does
        every shard. */
    twostate lemma ShardChanged(i: nat)
      requires old(Valid()) && i < |shards|
      requires shards[i].Valid() && parts == old(parts)[i := shards[i].Contents()]
      requires forall j :: 0 <= j < |shards| && j != i ==> unchanged(shards[j])
      requires PlacedIn(parts, shardFunction)
      ensures Valid()
      ensures Counts() == old(Counts())[i := shards[i].count]
      ensures shards[i].Dangling() == old(shards[i].Dangling()) ==> DanglingShards() == old(DanglingShards())
    {
      if shards[i].Dangling() == old(shards[i].Dangling()) {
        assert forall j :: 0 <= j < |shards| ==> (shards[j].Dangling() <==> old(shards[j].Dangling()));
      }
    }

    /** The fresh list over shards that are all fresh. */
    constructor Of(shards: seq<SkipList>, shardFunction: Item -> int)
      requires |shards| >= 1
      requires forall i, j :: 0 <= i < j < |shards| ==> shards[i] != shards[j]
      requires forall i :: 0 <= i < |shards| ==> shards[i].IsFresh()
      ensures this.shards == shards && this.shardFunction == shardFunction
      ensures Valid() && Elements() == [] && Count() == 0
    {
      this.shards := shards;
      this.shardFunction := shardFunction;
      parts := seq(|shards|, i => []);
      new;
      forall i | 0 <= i < |shards| ensures shards[i].Valid() && shards[i].Contents() == [] {
        shards[i].FreshIsEmpty();
      }
      FlattenEmpty(parts);
      SumZero(Counts());
    }

    /** The constructor: fewer than one shard is refused with
        `ArgumentOutOfRangeException`, a null shard function with
        `ArgumentNullException`; otherwise `shardCount` new empty shards. */
    static method Create(shardCount: int, shardFunction: Option<Item -> int>)
      returns (r: Result<ShardedSkipList>)
      ensures shardCount < 1 ==> r == Fail(ArgumentOutOfRange)
      ensures shardCount >= 1 && shardFunction.None? ==> r == Fail(ArgumentNull)
      ensures shardCount >= 1 && shardFunction.Some? ==>
                r.Ok? && fresh(r.value) && r.value.Valid() &&
                |r.value.shards| == shardCount && r.value.shardFunction == shardFunction.value &&
                r.value.Elements() == [] && r.value.Count() == 0 &&
                forall i :: 0 <= i < shardCount ==> fresh(r.value.shards[i])
    {
      if shardCount < 1 {
        return Fail(ArgumentOutOfRange);
      }
      if shardFunction.None? {
        return Fail(ArgumentNull);
      }
      var made: seq<SkipList> := [];
      while |made| < shardCount
        invariant |made| <= shardCount
        invariant forall i, j :: 0 <= i < j < |made| ==> made[i] != made[j]
        invariant forall i :: 0 <= i < |made| ==> fresh(made[i]) && made[i].IsFresh()
      {
        var shard := new SkipList();
        made := made + [shard];
      }
      var list := new ShardedSkipList.Of(made, shardFunction.value);
      r := Ok(list);
    }

    /** `Add(T item) => GetShard(item).Add(item)`. */
    method Add(item: Item) returns (r: Outcome)
      requires Valid()
      modifies this, shards
      ensures Valid()
      ensures !InRange(item) ==> r == Throw(ArgumentOutOfRange) && parts == old(parts)
      ensures InRange(item) ==>
                var i := shardFunction(item);
                var part := old(parts[i]);
                (old(shards[i].Crashes(item)) ==> r == Throw(NullReference) && parts == old(parts)) &&
                (!old(shards[i].Crashes(item)) ==>
                   r == Pass && parts == old(parts)[i := InsertAt(part, Ceiling(part, item), item)])
      ensures r == Pass ==> item in Elements() && Count() == old(Count()) + 1
      ensures r.Throw? ==> Count() == old(Count())
      ensures forall j :: 0 <= j < |shards| && j != shardFunction(item) ==> unchanged(shards[j])
      ensures DanglingShards() == old(DanglingShards())
    {
      if !InRange(item) {
        return Throw(ArgumentOutOfRange);
      }
      var i := shardFunction(item);
      var shard := shards[i];
      assert forall j :: 0 <= j < |shards| && j != i ==> shards[j] != shard;
      r := shard.Add(Some(item));
      parts := parts[i := shard.Contents()];
      if r == Pass {
        InsertPlaced(old(parts), shardFunction, i, Ceiling(old(parts[i]), item), item);
      }
      ShardChanged(i);
      SumUpdate(old(Counts()), i, shard.count);
      if r == Pass {
        assert item in parts[i];
        PlacedLookup(item);
      }
    }

    /** `Clear()`: clears every shard in turn. */
    method Clear()
      requires |shards| >= 1 && Separate()
      modifies this, shards
      ensures Valid()
      ensures forall i :: 0 <= i < |shards| ==> shards[i].IsFresh()
      ensures Elements() == [] && Count() == 0
    {
      ClearAll(shards);
      parts := seq(|shards|, i => []);
      assert forall i :: 0 <= i < |shards| ==> shards[i].Contents() == [];
      FlattenEmpty(parts);
      assert Valid();
    }

    /** `Contains(T item) => GetShard(item).Contains(item)`. */
    method Contains(item: Item) returns (r: Result<bool>)
      requires Valid()
      ensures !InRange(item) ==> r == Fail(ArgumentOutOfRange)
      ensures InRange(item) && shards[shardFunction(item)].Crashes(item) ==> r == Fail(NullReference)
      ensures InRange(item) && !shards[shardFunction(item)].Crashes(item) ==>
                r == Ok(HasKey(parts[shardFunction(item)], item))
      ensures item in Elements() ==> r == Ok(true) || r == Fail(NullReference)
    {
      PlacedLookup(item);
      if !InRange(item) {
        return Fail(ArgumentOutOfRange);
      }
      r := shards[shardFunction(item)].Contains(Some(item));
      if item in Elements() {
        var part := parts[shardFunction(item)];
        var j :| 0 <= j < |part| && part[j] == item;
        assert Equal(part[j], item);
      }
    }

    /** `Remove(T item) => GetShard(item).Remove(item)`. */
    method Remove(item: Item) returns (r: Result<bool>)
      requires Valid()
      modifies this, shards
      ensures Valid()
      ensures !InRange(item) ==> r == Fail(ArgumentOutOfRange) && parts == old(parts)
      ensures InRange(item) ==>
                var i := shardFunction(item);
                var part := old(parts[i]);
                (old(shards[i].count) > 0 && old(shards[i].Crashes(item)) ==> r == Fail(NullReference)) &&
                (old(shards[i].count) == 0 || !old(shards[i].Crashes(item)) ==> r == Ok(HasKey(part, item))) &&
                (r == Ok(true) ==> parts == old(parts)[i := RemoveAt(part, Ceiling(part, item))])
      ensures r != Ok(true) ==> parts == old(parts) && Count() == old(Count())
      ensures r == Ok(true) ==> Count() == old(Count()) - 1
      ensures forall j :: 0 <= j < |shards| && j != shardFunction(item) ==> unchanged(shards[j])
      ensures r != Ok(true) ==> DanglingShards() == old(DanglingShards())
      ensures r == Ok(true) ==>
                var i := shardFunction(item);
                shards[i].Dangling() ==
                  (shards[i].count > 0 &&
                   (old(shards[i].Dangling()) || Ceiling(old(parts[i]), item) == shards[i].count))
    {
      if !InRange(item) {
        return Fail(ArgumentOutOfRange);
      }
      var i := shardFunction(item);
      var shard := shards[i];
      assert forall j :: 0 <= j < |shards| && j != i ==> shards[j] != shard;
      r := shard.Remove(Some(item));
      parts := parts[i := shard.Contents()];
      if r == Ok(true) {
        RemovePlaced(old(parts), shardFunction, i, Ceiling(old(parts[i]), item));
      } else {
        assert unchanged(shard);
      }
      ShardChanged(i);
      SumUpdate(old(Counts()), i, shard.count);
    }

    /** `Find(T value) => GetShard(value).Find(value)`. */
    method Find(value: Item) returns (r: Result<Item>)
      requires Valid()
      ensures !InRange(value) ==> r == Fail(ArgumentOutOfRange)
      ensures InRange(value) && shards[shardFunction(value)].Crashes(value) ==> r == Fail(NullReference)
      ensures InRange(value) && !shards[shardFunction(value)].Crashes(value) ==>
                var part := parts[shardFunction(value)];
                (r.Ok? <==> HasKey(part, value)) &&
                (r.Fail? ==> r.error == KeyNotFound) &&
                (r.Ok? ==> Equal(r.value, value) && r.value == part[Ceiling(part, value)])
      ensures r.Ok? ==> r.value in Elements()
    {
      if !InRange(value) {
        return Fail(ArgumentOutOfRange);
      }
      r := shards[shardFunction(value)].Find(Some(value));
      if r.Ok? {
        FlattenMember(parts, r.value);
      }
    }

    /** `FindOrDefault(T value, T? defaultValue) => GetShard(value).FindOrDefault(value, defaultValue)`. */
    method FindOrDefault(value: Item, defaultValue: Option<Item>) returns (r: Result<Option<Item>>)
      requires Valid()
      ensures !InRange(value) ==> r == Fail(ArgumentOutOfRange)
      ensures InRange(value) && shards[shardFunction(value)].Crashes(value) ==> r == Fail(NullReference)
      ensures InRange(value) && !shards[shardFunction(value)].Crashes(value) ==>
                var part := parts[shardFunction(value)];
                r == Ok(if HasKey(part, value) then Some(part[Ceiling(part, value)]) else defaultValue)
      ensures r.Ok? && r.value != defaultValue ==>
                r.value.Some? && Equal(r.value.value, value) && r.value.value in Elements()
    {
      if !InRange(value) {
        return Fail(ArgumentOutOfRange);
      }
      var i := shardFunction(value);
      r := shards[i].FindOrDefault(Some(value), defaultValue);
      if r.Ok? && r.value != defaultValue {
        var part := parts[i];
        CeilingDecidesMembership(part, value);
        FlattenMember(parts, part[Ceiling(part, value)]);
      }
    }

    /** `GetEnumerator() => _shards.SelectMany(x => x)`: each shard's items in
        order, shard after shard. */
    method Enumerate() returns (s: seq<Item>)
      requires Valid()
      ensures s == Elements() && |s| == Count()
    {
      s := [];
      for i := 0 to |shards|
        invariant s == Flatten(parts[..i])
      {
        var part := shards[i].Enumerate();
        assert parts[..i + 1][..i] == parts[..i];
        s := s + part;
      }
      assert parts[..|shards|] == parts;
    }

    /** `CopyTo(T[] array, int arrayIndex)`: the shards' items are gathered in
        enumeration order and copied from `arrayIndex` on (`List<T>.CopyTo`,
        which throws `ArgumentNullException` for a null array,
        `ArgumentOutOfRangeException` for a negative index and
        `ArgumentException` when they do not fit), and then the WHOLE array
        is sorted. */
    method CopyTo(target: array?<Option<Item>>, arrayIndex: int) returns (r: Outcome)
      requires Valid()
      modifies target
      ensures target == null ==> r == Throw(ArgumentNull)
      ensures target != null && arrayIndex < 0 ==> r == Throw(ArgumentOutOfRange) && unchanged(target)
      ensures var items := old(Elements());
              target != null && arrayIndex >= 0 && target.Length - arrayIndex < |items| ==>
                r == Throw(Argument) && unchanged(target)
      ensures var items := old(Elements());
              target != null && arrayIndex >= 0 && target.Length - arrayIndex >= |items| ==>
                r == Pass && SortedCopy(old(target[..]), items, arrayIndex, target[..])
    {
      var all := Enumerate();
      r := CopySorted(all, target, arrayIndex);
    }

    /** One iteration of `AddRange`'s loop: `shard.AddRange(group)` on the
        shard the group's key names, which throws when that shard dangles. */
    method AddGroup(key: nat, group: seq<Item>) returns (r: Outcome)
      requires Valid() && key < |shards|
      requires PlacedIn(parts[key := Merge(parts[key], SortItems(group))], shardFunction)
      modifies this, shards
      ensures Valid()
      ensures forall j :: 0 <= j < |shards| && j != key ==> unchanged(shards[j])
      ensures DanglingShards() == old(DanglingShards())
      ensures old(shards[key].Dangling()) ==> r == Throw(NullReference) && parts == old(parts)
      ensures !old(shards[key].Dangling()) ==>
                r == Pass && parts == old(parts)[key := Merge(old(parts)[key], SortItems(group))]
    {
      var shard := shards[key];
      assert forall j :: 0 <= j < |shards| && j != key ==> shards[j] != shard;
      r := shard.AddRange(Some(group));
      parts := parts[key := shard.Contents()];
      ShardChanged(key);
    }

    /** `AddRange(IEnumerable<T> collection)`: groups the items by key (a null
        collection makes `GroupBy` throw `ArgumentNullException`), then
        bulk-adds each group to its shard in ascending key order.  The loop
        stops with an exception at the first key that is not a shard index
        (`ArgumentOutOfRangeException` from the list indexer) or that names a
        dangling shard (`NullReferenceException` from its merge); the groups
        before it stay added.  A negative key comes first and leaves every
        shard untouched. */
    method AddRange(collection: Option<seq<Item>>) returns (r: Outcome)
      requires Valid()
      modifies this, shards
      ensures Valid()
      ensures collection.None? ==> r == Throw(ArgumentNull) && parts == old(parts)
      ensures collection.Some? ==>
                var s, f := collection.value, shardFunction;
                var ks := Keys(s, f);
                var t := StopAt(ks, |shards|, old(DanglingShards()));
                parts == MergeSome(old(parts), s, f, ks[..t]) &&
                (t == |ks| ==> r == Pass) &&
                (t < |ks| ==> r == Throw(if 0 <= ks[t] < |shards| then NullReference else ArgumentOutOfRange))
      ensures collection.Some? ==>
                var s, f := collection.value, shardFunction;
                (r == Pass <==> AllIn(s, f, |shards|) && forall x :: x in s ==> f(x) !in old(DanglingShards())) &&
                (!NoneNegative(s, f) ==> r == Throw(ArgumentOutOfRange) && parts == old(parts)) &&
                (old(DanglingShards()) == {} ==>
                   parts == if NoneNegative(s, f) then MergeGroups(old(parts), s, f) else old(parts))
      ensures r == Pass ==>
                parts == MergeGroups(old(parts), collection.value, shardFunction) &&
                Count() == old(Count()) + |collection.value|
      ensures DanglingShards() == old(DanglingShards())
    {
      if collection.None? {
        return Throw(ArgumentNull);
      }
      var t: nat;
      r, t := AddGroups(collection.value);
      LoopStopped(old(parts), collection.value, shardFunction, old(DanglingShards()), t, r);
    }

    /** The loop of `AddRange`: `GetShard(shard[0]).AddRange(shard)` for the
        group of each key in ascending order, until a key is not a shard
        index or its shard's merge throws; `t` is the number of groups added. */
    method AddGroups(s: seq<Item>) returns (r: Outcome, t: nat)
      requires Valid()
      modifies this, shards
      ensures Valid()
      ensures var ks, n := Keys(s, shardFunction), |shards|;
              t <= |ks| &&
              parts == MergeSome(old(parts), s, shardFunction, ks[..t]) &&
              (forall u :: 0 <= u < t ==> 0 <= ks[u] < n && ks[u] !in old(DanglingShards())) &&
              (t == |ks| ==> r == Pass) &&
              (t < |ks| ==>
                 (!(0 <= ks[t] < n) || ks[t] in old(DanglingShards())) &&
                 r == Throw(if 0 <= ks[t] < n then NullReference else ArgumentOutOfRange))
      ensures DanglingShards() == old(DanglingShards())
    {
      ghost var parts0 := parts;
      ghost var dangling0 := DanglingShards();
      var ks := Keys(s, shardFunction);
      KeysFacts(s, shardFunction);
      t := 0;
      r := Pass;
      while t < |ks|
        invariant Valid() && r == Pass
        invariant Reached(s, ks, t, parts0, dangling0)
      {
        NextKeyIsNew(ks, t);
        r := AddKey(s, ks, t, parts0, dangling0);
        if r.Throw? {
          break;
        }
        t := t + 1;
      }
    }

    /** One pass of `AddGroups`' loop, for the key `ks[t]`: a key that is not
        a shard index throws from the list indexer, otherwise its group is
        bulk-added to its shard. */
    method AddKey(s: seq<Item>, ks: seq<int>, t: nat, ghost parts0: seq<seq<Item>>, ghost dangling0: set<int>)
      returns (r: Outcome)
      requires Valid() && Reached(s, ks, t, parts0, dangling0) && t < |ks| && ks[t] !in ks[..t]
      modifies this, shards
      ensures Valid()
      ensures r == Pass ==> Reached(s, ks, t + 1, parts0, dangling0)
      ensures r.Throw? ==>
                parts == old(parts) && DanglingShards() == old(DanglingShards()) &&
                (!(0 <= ks[t] < |shards|) || ks[t] in dangling0) &&
                r == Throw(if 0 <= ks[t] < |shards| then NullReference else ArgumentOutOfRange)
    {
      var key := ks[t];
      PrefixStep(ks, t);
      if !(0 <= key < |shards|) {
        return Throw(ArgumentOutOfRange);
      }
      GroupStep(parts0, s, shardFunction, ks, t);
      r := AddGroup(key, Group(s, shardFunction, key));
    }

    /** The state after the loop has added the groups of the keys `ks[..t]`:
        each named a shard without a null entry, those shards hold their
        merges, and no shard's null entry has come or gone. */
    ghost predicate Reached(s: seq<Item>, ks: seq<int>, t: nat, parts0: seq<seq<Item>>, dangling0: set<int>)
      requires Valid()
      reads this, shards
    {
      ks == Keys(s, shardFunction) && t <= |ks| &&
      (forall u :: 0 <= u < t ==> 0 <= ks[u] < |shards| && ks[u] !in dangling0) &&
      parts == MergeSome(parts0, s, shardFunction, ks[..t]) &&
      DanglingShards() == dangling0
    }
  }
}
