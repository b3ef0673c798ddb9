/** The repository's unit tests as client code of the ring, and the call
    sequences that make the as-written selection abort. */
module RingScenarios {
  import opened RingSpec
  import opened HashRing

  /** Adding one item to an empty ring places exactly PerCount nodes. */
  method AddOneItem(hasher: Hasher) returns (nodeCount: nat)
    ensures nodeCount == PerCount
  {
    var ring := new Ring<int>(hasher);
    var r := ring.AddItem(1, "tag:1");
    nodeCount := NodeCount(ring.link);
  }

  /** A fresh ring holding the one item `item` under `tag`. */
  method OneItemRing(hasher: Hasher, item: int, tag: string) returns (ring: Ring<int>)
    ensures fresh(ring) && ring.Valid() && ring.hasher == hasher
    ensures ring.table == map[tag := item]
    ensures NodeCount(ring.link) == PerCount
    ensures ring.link != map[] && NoEmptyBucket(ring.link)
  {
    ring := new Ring<int>(hasher);
    var r := ring.AddItem(item, tag);
    assert Replicas(hasher, tag)[0] in ring.link;
  }

  /** Adding a new tag and then removing it restores the node count, and
      leaves the tag on no node. */
  method AddThenRemove(ring: Ring<int>, item: int, tag: string)
    requires ring.Valid() && tag !in ring.table
    modifies ring
    ensures ring.Valid()
    ensures NodeCount(ring.link) == old(NodeCount(ring.link))
    ensures Occurrences(ring.link, tag) == 0
  {
    AbsentTagCount(ring.hasher, ring.link, ring.table, tag);
    var r1 := ring.AddItem(item, tag);
    var r2 := ring.RemoveItem(tag);
  }

  /** Adding two items and removing the second leaves PerCount nodes, none of
      them the removed tag. */
  method AddTwoRemoveOne(hasher: Hasher) returns (nodeCount: nat, found: bool)
    ensures nodeCount == PerCount && !found
  {
    var ring := OneItemRing(hasher, 1, "tag:1");
    AddThenRemove(ring, 2, "tag:2");
    nodeCount := NodeCount(ring.link);
    found := Occurrences(ring.link, "tag:2") > 0;
  }

  /** On a ring where every bucket is non-empty, a non-negative index never
      aborts the walk, and the walk ends on an item of the ring. */
  method SelectOnFullRing(ring: Ring<int>, index: i32) returns (r: Result<Option<int>, Panic>)
    requires ring.Valid() && ring.link != map[] && NoEmptyBucket(ring.link) && index >= 0
    ensures r.Ok? && r.value.Some? && r.value.value in ring.table.Values
    ensures r == Ok(Some(ring.table[Pick(ring.link[Chosen(ring.link, index)], index)]))
  {
    r := ring.Select(index);
    ghost var t := Pick(ring.link[Chosen(ring.link, index)], index);
    assert t in ring.table;
  }

  /** A fresh ring holding the items 1 and 2 under "tag:1" and "tag:2". */
  method TwoItemRing(hasher: Hasher) returns (ring: Ring<int>)
    ensures fresh(ring) && ring.Valid()
    ensures ring.table == map["tag:1" := 1, "tag:2" := 2]
    ensures ring.link != map[] && NoEmptyBucket(ring.link)
  {
    ring := OneItemRing(hasher, 1, "tag:1");
    var r := ring.AddItem(2, "tag:2");
    assert Replicas(hasher, "tag:2")[0] in ring.link;
  }

  /** Two items, then the same index selected twice gives the same item both
      times, for the two indices the repository checks. */
  method SelectTwice(hasher: Hasher) returns (t1: int, t2: int, t3: int, t4: int)
    ensures t1 == t2 && t3 == t4
    ensures t1 in {1, 2} && t3 in {1, 2}
  {
    var ring := TwoItemRing(hasher);
    var s1 := SelectOnFullRing(ring, 4567);
    var s2 := SelectOnFullRing(ring, 4567);
    var s3 := SelectOnFullRing(ring, 65535);
    var s4 := SelectOnFullRing(ring, 65535);
    t1, t2, t3, t4 := s1.value.value, s2.value.value, s3.value.value, s4.value.value;
  }

  /** A removed tag keeps its item-table entry, so adding it again fails. */
  method AddAfterRemove(hasher: Hasher) returns (r: Outcome<RingError>)
    ensures r == Fail(TagExists)
  {
    var ring := new Ring<int>(hasher);
    var r1 := ring.AddItem(1, "a");
    var r2 := ring.RemoveItem("a");
    r := ring.AddItem(1, "a");
  }

  /** Removing the only tag of a ring empties every bucket but keeps them
      all. */
  method RemoveOnlyTag(ring: Ring<int>, tag: string)
    requires ring.Valid() && ring.table.Keys == {tag} && ring.link != map[]
    modifies ring
    ensures ring.Valid()
    ensures ring.link.Keys == old(ring.link.Keys)
    ensures ring.link != map[] && forall k :: k in ring.link ==> ring.link[k] == []
  {
    var r := ring.RemoveItem(tag);
    EmptiedBuckets(ring.hasher, ring.link, ring.table, tag);
  }

  /** A ring whose only item, under `tag`, was added and then removed: its
      buckets are still there, all of them empty. */
  method EmptiedRing(hasher: Hasher, tag: string) returns (ring: Ring<int>)
    ensures fresh(ring) && ring.Valid()
    ensures ring.link != map[] && forall k :: k in ring.link ==> ring.link[k] == []
  {
    ring := OneItemRing(hasher, 1, tag);
    RemoveOnlyTag(ring, tag);
  }

  /** Adding and removing the only item leaves empty buckets behind, and the
      next selection divides by a zero bucket length. */
  method SelectAfterRemovingAll(hasher: Hasher, index: i32) returns (r: Result<Option<int>, Panic>)
    ensures r == Err(RemainderByZero)
  {
    var ring := EmptiedRing(hasher, "a");
    r := ring.Select(index);
    ghost var lo := MinKey(ring.link);
    assert Touched(ring.link, index, lo) && Faulty(ring.link[lo], index);
  }

  /** A negative index whose truncated remainder by the first bucket's
      length is negative makes the walk index out of bounds there. */
  method SelectNegativeIndex(ring: Ring<int>, index: i32) returns (r: Result<Option<int>, Panic>)
    requires ring.Valid() && ring.link != map[] && NoEmptyBucket(ring.link)
    requires index < 0 && TruncRem(index, |ring.link[MinKey(ring.link)]|) != 0
    ensures r == Err(IndexOutOfBounds)
  {
    r := ring.Select(index);
    ghost var lo := MinKey(ring.link);
    assert Touched(ring.link, index, lo) && Faulty(ring.link[lo], index);
    if r.Err? {
      ghost var k :| FirstFaultAt(ring.link, index, k) && r.error == Reason(ring.link[k]);
      assert ring.link[k] != [];
    }
  }
}
