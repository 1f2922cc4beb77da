/** The sharded skip list whose shards are uniqueness skip lists: `Add`
    reaches the shard's duplicate-refusing `Add`, and `Update` is routed to
    the shard the new value's key names.  Every other operation is the
    sharded list's own, reached through `base`. */
module ComparableShardedSkipLists {
  import opened Items
  import opened SkipLists
  import opened ComparableSkipLists
  import opened ShardedSkipLists

  /** No part holds two items with the same key. */
  predicate AllUnique(parts: seq<seq<Item>>) {
    forall i :: 0 <= i < |parts| ==> UniqueKeys(parts[i])
  }

  /** Overwriting the items with a key keeps the keys unique. */
  lemma ReplaceKeepsUnique(parts: seq<seq<Item>>, i: nat, v: Item)
    requires AllUnique(parts) && i < |parts| && Sorted(parts[i])
    ensures AllUnique(parts[i := ReplaceEqual(parts[i], v)])
  {
    ReplaceEqualKeepsKeys(parts[i], v);
  }

  /** Inserting an item whose key is absent keeps the keys unique. */
  lemma InsertKeepsUnique(parts: seq<seq<Item>>, i: nat, v: Item)
    requires AllUnique(parts) && i < |parts| && !HasKey(parts[i], v)
    ensures AllUnique(parts[i := InsertAt(parts[i], Ceiling(parts[i], v), v)])
  {
    InsertAbsentKeepsUnique(parts[i], Ceiling(parts[i], v), v);
  }

  class ComparableShardedSkipList {
    /** The `ShardedSkipList<T, TShard>` part of the object. */
    const base: ShardedSkipList
    /** The shards as `ComparableSkipList<T>` objects: shard `i` is the
        uniqueness list around `base.shards[i]`. */
    const shards: seq<ComparableSkipList>

    /** The sharded list is valid and `shards` wraps exactly its shards. */
    ghost predicate Valid()
      reads this, base, base.shards
    {
      base.Valid() && |shards| == |base.shards| &&
      forall i :: 0 <= i < |shards| ==> shards[i].list == base.shards[i]
    }

    /** No shard holds two items with the same key. */
    ghost predicate KeysUnique()
      reads base
    {
      AllUnique(base.parts)
    }

    /** The fresh list over fresh uniqueness shards. */
    constructor Of(shards: seq<ComparableSkipList>, shardFunction: Item -> int)
      requires |shards| >= 1
      requires forall i, j :: 0 <= i < j < |shards| ==> shards[i].list != shards[j].list
      requires forall i :: 0 <= i < |shards| ==> shards[i].list.IsFresh()
      ensures Valid() && KeysUnique() && fresh(base)
      ensures this.shards == shards && base.shardFunction == shardFunction
      ensures base.Elements() == [] && base.Count() == 0
    {
      var lists := seq(|shards|, i requires 0 <= i < |shards| => shards[i].list);
      base := new ShardedSkipList.Of(lists, shardFunction);
      this.shards := shards;
    }

    /** The constructor `ComparableShardedSkipList(shardCount, shardFunction)`:
        the base constructor's checks (fewer than one shard is refused with
        `ArgumentOutOfRangeException`, a null function with
        `ArgumentNullException`), then `shardCount` new empty uniqueness
        shards. */
    static method Create(shardCount: int, shardFunction: Option<Item -> int>)
      returns (r: Result<ComparableShardedSkipList>)
      ensures shardCount < 1 ==> r == Fail(ArgumentOutOfRange)
      ensures shardCount >= 1 && shardFunction.None? ==> r == Fail(ArgumentNull)
      ensures shardCount >= 1 && shardFunction.Some? ==>
                r.Ok? && fresh(r.value) && fresh(r.value.base) && r.value.Valid() && r.value.KeysUnique() &&
                |r.value.shards| == shardCount && r.value.base.shardFunction == shardFunction.value &&
                r.value.base.Elements() == [] && r.value.base.Count() == 0
    {
      if shardCount < 1 {
        return Fail(ArgumentOutOfRange);
      }
      if shardFunction.None? {
        return Fail(ArgumentNull);
      }
      var made: seq<ComparableSkipList> := [];
      while |made| < shardCount
        invariant |made| <= shardCount
        invariant forall i, j :: 0 <= i < j < |made| ==> made[i].list != made[j].list
        invariant forall i :: 0 <= i < |made| ==>
                    fresh(made[i].list) && made[i].list.IsFresh()
      {
        var shard := new ComparableSkipList();
        made := made + [shard];
      }
      var list := new ComparableShardedSkipList.Of(made, shardFunction.value);
      r := Ok(list);
    }

    /** `Add(T item) => GetShard(item).Add(item)`, where the shard's `Add` is
        the uniqueness list's: a key already in the owning shard is refused
        with `InvalidOperationException`.  Only the owning shard changes. */
    method Add(item: Item) returns (r: Outcome)
      requires Valid()
      modifies base, base.shards
      ensures Valid()
      ensures !base.InRange(item) ==> r == Throw(ArgumentOutOfRange) && base.parts == old(base.parts)
      ensures base.InRange(item) ==>
                var i := base.shardFunction(item);
                var part := old(base.parts[i]);
                (old(base.shards[i].Crashes(item)) ==> r == Throw(NullReference) && base.parts == old(base.parts)) &&
                (!old(base.shards[i].Crashes(item)) && HasKey(part, item) ==>
                   r == Throw(InvalidOperation) && base.parts == old(base.parts)) &&
                (!old(base.shards[i].Crashes(item)) && !HasKey(part, item) ==>
                   r == Pass && base.parts == old(base.parts)[i := InsertAt(part, Ceiling(part, item), item)])
      ensures forall j :: 0 <= j < |base.shards| && j != base.shardFunction(item) ==> unchanged(base.shards[j])
      ensures r == Pass ==> item in base.Elements() && base.Count() == old(base.Count()) + 1
      ensures r.Throw? ==> base.Count() == old(base.Count())
      ensures base.DanglingShards() == old(base.DanglingShards())
      ensures old(KeysUnique()) ==> KeysUnique()
    {
      if !base.InRange(item) {
        return Throw(ArgumentOutOfRange);
      }
      var i := base.shardFunction(item);
      var shard := shards[i];
      assert forall j :: 0 <= j < |base.shards| && j != i ==> base.shards[j] != shard.list;
      r := shard.Add(Some(item));
      base.parts := base.parts[i := shard.list.Contents()];
      if r == Pass {
        InsertPlaced(old(base.parts), base.shardFunction, i, Ceiling(old(base.parts[i]), item), item);
        if old(KeysUnique()) {
          InsertKeepsUnique(old(base.parts), i, item);
        }
      } else {
        assert unchanged(shard.list);
      }
      base.ShardChanged(i);
      SumUpdate(old(base.Counts()), i, shard.list.count);
      if r == Pass {
        assert item in base.parts[i];
        base.PlacedLookup(item);
      }
    }

    /** `Update(T newValue) => GetShard(newValue).Update(newValue)`: the
        owning shard overwrites its items with the new value's key; the
        result is that shard's.  A miss changes nothing; a hit leaves every
        key, and so `Count`, as it was, and a later `Find` with the same key
        returns the new value. */
    method Update(newValue: Item) returns (r: Result<bool>)
      requires Valid()
      modifies base, base.shards
      ensures Valid()
      ensures !base.InRange(newValue) ==> r == Fail(ArgumentOutOfRange) && base.parts == old(base.parts)
      ensures base.InRange(newValue) ==>
                var i := base.shardFunction(newValue);
                var part := old(base.parts[i]);
                (old(base.shards[i].Crashes(newValue)) ==> r == Fail(NullReference) && base.parts == old(base.parts)) &&
                (!old(base.shards[i].Crashes(newValue)) ==>
                   r == Ok(HasKey(part, newValue)) &&
                   base.parts == old(base.parts)[i := ReplaceEqual(part, newValue)])
      ensures forall j :: 0 <= j < |base.shards| && j != base.shardFunction(newValue) ==> unchanged(base.shards[j])
      ensures r != Ok(true) ==> base.parts == old(base.parts) && forall j :: 0 <= j < |base.shards| ==> unchanged(base.shards[j])
      ensures r == Ok(true) ==>
                var part := base.parts[base.shardFunction(newValue)];
                Ceiling(part, newValue) < |part| && part[Ceiling(part, newValue)] == newValue &&
                newValue in base.Elements()
      ensures base.Count() == old(base.Count())
      ensures base.DanglingShards() == old(base.DanglingShards())
      ensures old(KeysUnique()) ==> KeysUnique()
    {
      if !base.InRange(newValue) {
        return Fail(ArgumentOutOfRange);
      }
      var i := base.shardFunction(newValue);
      var shard := shards[i];
      ghost var part := base.parts[i];
      assert forall j :: 0 <= j < |base.shards| && j != i ==> base.shards[j] != shard.list;
      r := shard.Update(Some(newValue));
      base.parts := base.parts[i := shard.list.Contents()];
      if r.Ok? {
        forall x | x in ReplaceEqual(part, newValue) ensures x in part || base.shardFunction(x) == i {
          ReplaceMembers(part, newValue, x);
        }
        PlacedUpdate(old(base.parts), base.shardFunction, i, ReplaceEqual(part, newValue));
        if old(KeysUnique()) {
          ReplaceKeepsUnique(old(base.parts), i, newValue);
        }
      }
      if r != Ok(true) {
        assert unchanged(shard.list);
      }
      base.ShardChanged(i);
      assert old(base.Counts())[i := shard.list.count] == old(base.Counts());
      if r == Ok(true) {
        ReplaceEqualThenFind(part, newValue);
        assert newValue in base.parts[i];
        base.PlacedLookup(newValue);
      }
    }
  }
}
