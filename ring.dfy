/** The ring itself: a table from tag to item, and a bucket table `link`
    from ring position to the tags whose replicas hash there. */
module HashRing {
  import opened RingSpec

  class Ring<T> {
    /** The 64-bit string hash every position is derived from. */
    const hasher: Hasher
    /** Ring position -> tags placed there, in insertion order. */
    var link: Link
    /** Tag -> item. */
    var table: map<string, T>

    ghost predicate Valid()
      reads this
    {
      Consistent(hasher, link, table)
    }

    /** The empty ring. */
    constructor (hasher: Hasher)
      ensures Valid() && this.hasher == hasher
      ensures link == map[] && table == map[]
      ensures NodeCount(link) == 0
    {
      this.hasher := hasher;
      link := map[];
      table := map[];
      SizeOfEmpty(0);
    }

    /** Registers `item` under `tag` and appends `tag` to the bucket of each
        of its PerCount replica positions. A tag that is already registered
        is refused and nothing changes. */
    method AddItem(item: T, tag: string) returns (r: Outcome<RingError>)
      requires Valid()
      modifies this
      ensures Valid()
      ensures old(tag in table) ==> r == Fail(TagExists) && link == old(link) && table == old(table)
      ensures old(tag !in table) ==>
        && r == Pass
        && table == old(table)[tag := item]
        && link == Placed(old(link), tag, Replicas(hasher, tag))
      ensures old(tag !in table) ==> forall k :: k in Replicas(hasher, tag) ==> k in link
      ensures forall k :: k in old(link) ==> k in link && old(link)[k] <= link[k]
      ensures old(tag !in table) ==> Occurrences(link, tag) == old(Occurrences(link, tag)) + PerCount
      ensures old(tag !in table) ==> forall u :: u != tag ==> Occurrences(link, u) == old(Occurrences(link, u))
      ensures old(tag !in table) ==> NodeCount(link) == old(NodeCount(link)) + PerCount
      ensures old(NoEmptyBucket(link)) ==> NoEmptyBucket(link)
    {
      if tag in table {
        return Fail(TagExists);
      }
      table := table[tag := item];
      ghost var ps := Replicas(hasher, tag);
      for i := 0 to PerCount
        invariant table == old(table)[tag := item]
        invariant link == Placed(old(link), tag, ps[..i])
      {
        var key := HashIndex(hasher, tag + Decimal(i));
        assert ps[..i + 1] == ps[..i] + [key];
        if key in link {
          link := link[key := link[key] + [tag]];
        } else {
          assert [] + [tag] == [tag];
          link := link[key := [tag]];
        }
      }
      assert ps[..PerCount] == ps;
      PlacedConsistent(hasher, old(link), old(table), tag, item);
      ReplicasInRange(hasher, tag);
      forall k | k in ps
        ensures k in link
      {
        PlacedKeys(old(link), tag, ps, k);
      }
      forall k | k in old(link)
        ensures k in link && old(link)[k] <= link[k]
      {
        PlacedKeys(old(link), tag, ps, k);
        PlacedShape(old(link), tag, ps, k);
      }
      forall u | u != tag
        ensures Occurrences(link, u) == old(Occurrences(link, u))
      {
        PlacedCounts(old(link), tag, ps, u);
      }
      PlacedCounts(old(link), tag, ps, tag);
      return Pass;
    }

    /** Deletes every occurrence of `tag` from the buckets at its replica
        positions. The tag keeps its entry in the item table, emptied buckets
        stay in place, and the call always succeeds. */
    method RemoveItem(tag: string) returns (r: Outcome<RingError>)
      requires Valid()
      modifies this
      ensures Valid()
      ensures r == Pass && table == old(table)
      ensures link == Removed(old(link), tag, Replicas(hasher, tag))
      ensures link.Keys == old(link).Keys
      ensures forall k :: k in link ==> tag !in link[k]
      ensures forall k :: k in link ==> Subsequence(link[k], old(link)[k])
      ensures Occurrences(link, tag) == 0
      ensures forall u :: u != tag ==> Occurrences(link, u) == old(Occurrences(link, u))
      ensures NodeCount(link) + old(Occurrences(link, tag)) == old(NodeCount(link))
    {
      ghost var ps := Replicas(hasher, tag);
      for i := 0 to PerCount
        invariant table == old(table)
        invariant link == Removed(old(link), tag, ps[..i])
      {
        var key := HashIndex(hasher, tag + Decimal(i));
        assert ps[..i + 1] == ps[..i] + [key];
        if key in link {
          link := link[key := Filter(link[key], tag)];
        }
      }
      assert ps[..PerCount] == ps;
      RemovedAll(hasher, old(link), old(table), tag);
      ReplicasInRange(hasher, tag);
      forall k | k in link
        ensures Subsequence(link[k], old(link)[k])
      {
        RemovedShape(old(link), tag, ps, k);
        FilterKeepsOrder(old(link)[k], tag);
        SubsequenceRefl(old(link)[k]);
      }
      forall u | u != tag
        ensures Occurrences(link, u) == old(Occurrences(link, u))
      {
        RemovedCounts(old(link), tag, ps, u);
      }
      return Pass;
    }

    /** The bucket-walk of `select`: visits the keys in ascending order and,
        at the first key and at every key above `index`, takes the element
        at the truncated remainder of `index` by the bucket's length. The
        last element taken is looked up in the item table. An empty bucket
        (remainder by zero) or a negative remainder (an out-of-range index
        once cast to unsigned) aborts the walk. */
    method Select(index: i32) returns (r: Result<Option<T>, Panic>)
      requires Valid()
      ensures link == map[] ==> r == Ok(None)
      ensures r.Err? ==> link != map[] && exists k :: FirstFaultAt(link, index, k) && r.error == Reason(link[k])
      ensures link != map[] && r.Ok? ==>
        NoFault(link, index) && r == Ok(Some(table[Pick(link[Chosen(link, index)], index)]))
    {
      var keys := OrderedKeys(link);
      if link != map[] {
        EnumeratedEnds(link, keys);
      }
      var tag: Option<string> := None;
      var j := 0;
      while j < |keys|
        invariant 0 <= j <= |keys|
        invariant tag.None? <==> j == 0
        invariant j > 0 ==> link != map[] && keys[0] == MinKey(link)
        invariant CleanPrefix(link, keys, j, index)
        invariant j > 0 ==> tag == Some(Pick(link[LastTouched(keys, j, index)], index))
      {
        var key := keys[j];
        var items := link[key];
        if tag.None? || key > index {
          var len := |items|;
          if len == 0 {
            FirstFault(link, keys, j, index);
            return Err(RemainderByZero);
          }
          var rem := TruncRem(index, len);
          if rem < 0 {
            FirstFault(link, keys, j, index);
            return Err(IndexOutOfBounds);
          }
          tag := Some(items[rem]);
        }
        WalkStep(link, keys, j, index);
        j := j + 1;
      }
      if tag.None? {
        return Ok(None);
      }
      WalkCompleted(link, keys, index);
      ghost var chosen := Chosen(link, index);
      assert tag.value == Pick(link[chosen], index);
      TagHasItem(hasher, link, table, chosen, tag.value);
      return Ok(Lookup(table, tag.value));
    }

    /** The corrected selection: the item of the first non-empty bucket at
        or above `index`, or of the first non-empty bucket when there is
        none, picking inside the bucket by the non-negative remainder. */
    method SelectNearest(index: int) returns (r: Option<T>)
      requires Valid()
      ensures r.None? <==> forall k :: k in link ==> link[k] == []
      ensures r.Some? ==> exists k :: IsNearest(link, index, k) && r == Some(table[link[k][index % |link[k]|]])
    {
      var keys := OrderedKeys(link);
      var first: Option<int> := None;
      var j := 0;
      while j < |keys|
        invariant 0 <= j <= |keys|
        invariant first.None? ==> EmptyPrefix(link, keys, j)
        invariant first.Some? ==> LeastOccupied(link, keys, j, first.value) && 0 < j && first.value <= keys[j - 1]
        invariant EmptyFromIndex(link, keys, j, index)
      {
        var k := keys[j];
        var b := link[k];
        if b != [] && k >= index {
          NearestAbove(link, keys, j, index);
          var t := b[index % |b|];
          TagHasItem(hasher, link, table, k, t);
          return Some(table[t]);
        }
        NearestStep(link, keys, j, index, first);
        if b != [] && first.None? {
          first := Some(k);
        }
        j := j + 1;
      }
      if first.None? {
        NoneOccupied(link, keys);
        return None;
      }
      var k := first.value;
      var b := link[k];
      NearestWrapped(link, keys, k, index);
      var t := b[index % |b|];
      TagHasItem(hasher, link, table, k, t);
      return Some(table[t]);
    }
  }
}
