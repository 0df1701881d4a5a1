/** The runtime table object (table.go): one row per slot, an index from token to slot, and
    inverted indexes by (pool, mode) and by tag, all updated in place. */
module AccountTable {
  import opened AccountModel

  datatype ModeKey = ModeKey(pool: int, mode: int)

  function Bucket<K(==), V(==)>(index: map<K, set<V>>, k: K): set<V> {
    if k in index then index[k] else {}
  }

  /** Puts `i` into the bucket of `k`, creating the bucket when it is missing. */
  function AddTo<K(==,!new)>(index: map<K, set<int>>, k: K, i: int): (r: map<K, set<int>>)
    ensures forall k': K, j: int {:trigger j in Bucket(r, k')} ::
      j in Bucket(r, k') <==> j in Bucket(index, k') || (k' == k && j == i)
  {
    index[k := Bucket(index, k) + {i}]
  }

  /** Takes `i` out of the bucket of `k`, if there is one. */
  function RemoveFrom<K(==,!new)>(index: map<K, set<int>>, k: K, i: int): (r: map<K, set<int>>)
    ensures forall k': K, j: int {:trigger j in Bucket(r, k')} ::
      j in Bucket(r, k') <==> j in Bucket(index, k') && !(k' == k && j == i)
  {
    if k in index then index[k := index[k] - {i}] else index
  }

  /** The tags of slot `i`, read off the buckets. */
  function TagsOf(index: map<string, set<int>>, i: int): (tags: set<string>)
    ensures forall tag: string {:trigger tag in tags} {:trigger i in Bucket(index, tag)} ::
      tag in tags <==> i in Bucket(index, tag)
  {
    set tag | tag in index && i in Bucket(index, tag)
  }

  function TagColumn(index: map<string, set<int>>, n: nat): (tags: seq<set<string>>)
    ensures |tags| == n
    ensures forall i :: 0 <= i < n ==> tags[i] == TagsOf(index, i)
  {
    seq(n, i => TagsOf(index, i))
  }

  /** Re-tagging slot `idx`: its bucket memberships lose `gone`, gain `come`; no other slot's change. */
  lemma TagsMoved(before: map<string, set<int>>, after: map<string, set<int>>, idx: int,
                  gone: set<string>, come: set<string>)
    requires forall tag: string, i: int {:trigger i in Bucket(after, tag)} ::
      i in Bucket(after, tag) <==> (i in Bucket(before, tag) && !(i == idx && tag in gone)) || (i == idx && tag in come)
    ensures forall i :: TagsOf(after, i) == if i == idx then (TagsOf(before, i) - gone) + come else TagsOf(before, i)
  {
    forall i ensures TagsOf(after, i) == if i == idx then (TagsOf(before, i) - gone) + come else TagsOf(before, i) {
      var expected := if i == idx then (TagsOf(before, i) - gone) + come else TagsOf(before, i);
      forall tag ensures tag in TagsOf(after, i) <==> tag in expected {
        assert tag in TagsOf(after, i) <==> i in Bucket(after, tag);
        assert tag in TagsOf(before, i) <==> i in Bucket(before, tag);
      }
    }
  }

  class RuntimeTable {
    var tokens: seq<string>
    var idxOf: map<string, int>
    var rows: seq<Row>
    var modeAvailable: map<ModeKey, set<int>>
    var tagIdx: map<string, set<int>>
    var revision: int
    var size: int

    /** The mode index holds exactly the active slots with a positive window, and under other mode ids only
        slots of the table. */
    ghost predicate ModeIndexed()
      reads this
    {
      && (forall p: int, m: int, i: int {:trigger i in Bucket(modeAvailable, ModeKey(p, m))} ::
            i in Bucket(modeAvailable, ModeKey(p, m)) ==> 0 <= i < |rows|)
      &&
      forall p: int, m: int, i: int {:trigger i in Bucket(modeAvailable, ModeKey(p, m))} :: KnownMode(m) ==>
        (i in Bucket(modeAvailable, ModeKey(p, m)) <==> 0 <= i < |rows| && Indexed(rows[i], p, m))
    }

    ghost predicate TagsInRange()
      reads this
    {
      forall tag: string, i: int {:trigger i in Bucket(tagIdx, tag)} ::
        i in Bucket(tagIdx, tag) ==> 0 <= i < |rows|
    }

    ghost predicate Valid()
      reads this
    {
      |rows| == |tokens| && ModeIndexed() && TagsInRange()
    }

    /** The table as a value. The mode index is left out: `Valid` derives it from the rows. */
    ghost function View(): Table
      reads this
    {
      Table(tokens, idxOf, rows, TagColumn(tagIdx, |rows|), revision, size)
    }

    constructor ()
      ensures Valid() && View() == EMPTY
    {
      tokens, idxOf, rows := [], map[], [];
      modeAvailable, tagIdx := map[], map[];
      revision, size := 0, 0;
    }

    method AddToIndexes(idx: int)
      requires 0 <= idx < |rows|
      modifies this`modeAvailable
      ensures forall p: int, m: int, i: int {:trigger i in Bucket(modeAvailable, ModeKey(p, m))} ::
        i in Bucket(modeAvailable, ModeKey(p, m)) <==>
          i in old(Bucket(modeAvailable, ModeKey(p, m))) || (i == idx && Indexed(rows[idx], p, m))
    {
      var pool := rows[idx].pool;
      if rows[idx].status != ACTIVE {
        return;
      }
      for mode := 0 to 6
        invariant forall p: int, m: int, i: int {:trigger i in Bucket(modeAvailable, ModeKey(p, m))} ::
          i in Bucket(modeAvailable, ModeKey(p, m)) <==>
            i in old(Bucket(modeAvailable, ModeKey(p, m))) || (i == idx && m < mode && Indexed(rows[idx], p, m))
      {
        if rows[idx].window.Get(mode) > 0 {
          modeAvailable := AddTo(modeAvailable, ModeKey(pool, mode), idx);
        }
      }
    }

    method RemoveFromIndexes(idx: int)
      requires 0 <= idx < |rows|
      modifies this`modeAvailable
      ensures forall p: int, m: int, i: int {:trigger i in Bucket(modeAvailable, ModeKey(p, m))} ::
        i in Bucket(modeAvailable, ModeKey(p, m)) <==>
          i in old(Bucket(modeAvailable, ModeKey(p, m))) && !(i == idx && p == rows[idx].pool && KnownMode(m))
    {
      var pool := rows[idx].pool;
      for mode := 0 to 6
        invariant forall p: int, m: int, i: int {:trigger i in Bucket(modeAvailable, ModeKey(p, m))} ::
          i in Bucket(modeAvailable, ModeKey(p, m)) <==>
            i in old(Bucket(modeAvailable, ModeKey(p, m))) && !(i == idx && p == pool && 0 <= m < mode)
      {
        modeAvailable := RemoveFrom(modeAvailable, ModeKey(pool, mode), idx);
      }
    }

    method RemoveFromTagIdx(idx: int, tags: seq<string>)
      modifies this`tagIdx
      ensures forall tag: string, i: int {:trigger i in Bucket(tagIdx, tag)} ::
        i in Bucket(tagIdx, tag) <==> i in old(Bucket(tagIdx, tag)) && !(i == idx && tag in tags)
    {
      for k := 0 to |tags|
        invariant forall tag: string, i: int {:trigger i in Bucket(tagIdx, tag)} ::
          i in Bucket(tagIdx, tag) <==> i in old(Bucket(tagIdx, tag)) && !(i == idx && tag in tags[..k])
      {
        assert tags[..k + 1] == tags[..k] + [tags[k]];
        tagIdx := RemoveFrom(tagIdx, tags[k], idx);
      }
      assert tags[..|tags|] == tags;
    }

    method AddToTagIdx(idx: int, tags: seq<string>)
      modifies this`tagIdx
      ensures forall tag: string, i: int {:trigger i in Bucket(tagIdx, tag)} ::
        i in Bucket(tagIdx, tag) <==> i in old(Bucket(tagIdx, tag)) || (i == idx && tag in tags)
    {
      for k := 0 to |tags|
        invariant forall tag: string, i: int {:trigger i in Bucket(tagIdx, tag)} ::
          i in Bucket(tagIdx, tag) <==> i in old(Bucket(tagIdx, tag)) || (i == idx && tag in tags[..k])
      {
        assert tags[..k + 1] == tags[..k] + [tags[k]];
        tagIdx := AddTo(tagIdx, tags[k], idx);
      }
      assert tags[..|tags|] == tags;
    }

    /** Appends a slot and indexes it. Nothing here looks the token up: the callers do. */
    method AppendSlot(slot: Slot) returns (idx: int)
      requires Valid()
      modifies this
      ensures Valid() && View() == Append(old(View()), slot)
      ensures idx == |old(tokens)| && idx < |rows| && Holds(rows[idx], slot)
      ensures rows[idx].inflight == 0 && rows[idx].health == slot.health && rows[idx].cooling == 0
    {
      WrittenHolds(FreshRow(slot), slot);
      hide Holds;
      idx := |tokens|;
      ghost var before := tagIdx;
      tokens := tokens + [slot.token];
      idxOf := idxOf[slot.token := idx];
      rows := rows + [FreshRow(slot)];
      size := size + 1;
      AddToIndexes(idx);
      AddToTagIdx(idx, slot.tags);
      TagsMoved(before, tagIdx, idx, {}, TagSet(slot.tags));
      assert TagsOf(before, idx) == {};
      assert TagsOf(tagIdx, idx) == TagSet(slot.tags);
      assert TagColumn(tagIdx, idx + 1) == TagColumn(before, idx) + [TagSet(slot.tags)];
    }

    /** Rewrites a slot in place and moves it between the buckets of both indexes. */
    method UpdateSlot(idx: int, slot: Slot, oldTags: seq<string>)
      requires Valid() && 0 <= idx < |rows|
      modifies this
      ensures Valid() && View() == Update(old(View()), idx, slot, TagSet(oldTags))
      ensures Holds(rows[idx], slot)
      ensures rows[idx] == old(rows[idx]).(pool := rows[idx].pool, status := rows[idx].status, quota := rows[idx].quota,
        total := rows[idx].total, window := rows[idx].window, reset := rows[idx].reset, fails := rows[idx].fails,
        lastUse := rows[idx].lastUse, lastFail := rows[idx].lastFail)
    {
      WrittenHolds(rows[idx], slot);
      hide Holds;
      ghost var before := tagIdx;
      RemoveFromIndexes(idx);
      RemoveFromTagIdx(idx, oldTags);
      rows := rows[idx := Rewrite(rows[idx], slot)];
      AddToIndexes(idx);
      AddToTagIdx(idx, slot.tags);
      TagsMoved(before, tagIdx, idx, TagSet(oldTags), TagSet(slot.tags));
    }
  }
}
