/** Loading the table from a repository and keeping it in step with the change feed (sync.go). */
module AccountSync {
  import opened Wrappers
  import opened AccountModel
  import opened AccountTable

  /** A stored account. `slot` is its fixed projection, or None when its quota data is malformed. */
  datatype Record = Record(token: string, deleted: bool, slot: Option<Slot>)

  datatype ChangeSet = ChangeSet(revision: int, items: seq<Record>, deletedTokens: seq<string>, hasMore: bool)

  // ---- What sync does to the table value ----------------------------------

  ghost function Upsert(t: Table, s: Slot): (t': Table)
    requires WF(t)
    ensures WF(t')
  {
    if s.token in t.idxOf then
      Update(t, t.idxOf[s.token], s, t.tags[t.idxOf[s.token]])
    else Append(t, s)
  }

  ghost function Delete(t: Table, token: string): (t': Table)
    requires WF(t)
    ensures WF(t')
  {
    if token in t.idxOf then MarkDeleted(t, t.idxOf[token]) else t
  }

  /** One record of a group; None when its projection fails. */
  ghost function ApplyRecord(t: Table, r: Record): (t': Option<Table>)
    requires WF(t)
    ensures t'.Some? ==> WF(t'.value)
  {
    if r.deleted then Some(Delete(t, r.token))
    else if r.slot.None? then None
    else Some(Upsert(t, r.slot.value.(token := r.token)))
  }

  ghost function ApplyDeletes(t: Table, tokens: seq<string>): (t': Table)
    requires WF(t)
    ensures WF(t')
    decreases |tokens|
  {
    if tokens == [] then t else ApplyDeletes(Delete(t, tokens[0]), tokens[1..])
  }

  /** The items up to the first whose projection fails, and whether all were applied. */
  ghost function ApplyItems(t: Table, items: seq<Record>): (r: (Table, bool))
    requires WF(t)
    ensures WF(r.0)
    decreases |items|
  {
    if items == [] then (t, true)
    else if ApplyRecord(t, items[0]).None? then (t, false)
    else ApplyItems(ApplyRecord(t, items[0]).value, items[1..])
  }

  /** One round of the change feed; the cursor moves only when the whole group was applied. */
  ghost function ApplyGroup(t: Table, cs: ChangeSet): (r: (Table, bool))
    requires WF(t)
    ensures WF(r.0)
  {
    var (t1, ok) := ApplyItems(ApplyDeletes(t, cs.deletedTokens), cs.items);
    (if ok then t1.(revision := Max(t1.revision, cs.revision)) else t1, ok)
  }

  /** The change feed as `ApplyChanges` meets it: the answer to the k-th scan from a cursor. */
  type Feed = (nat, int) -> Option<ChangeSet>

  /** A feed makes progress when a round that announces more also moves the cursor, within a bound. */
  ghost predicate Progresses(feed: Feed, bound: int) {
    forall k: nat, since: int {:trigger feed(k, since)} ::
      feed(k, since).Some? && feed(k, since).value.hasMore ==> since < feed(k, since).value.revision <= bound
  }

  /** All rounds of one `ApplyChanges`, from scan k on, and whether it ended without an error. */
  ghost function Drain(t: Table, feed: Feed, k: nat, bound: int): (r: (Table, bool))
    requires WF(t) && Progresses(feed, bound)
    ensures WF(r.0)
    decreases bound - t.revision
  {
    var cs := feed(k, t.revision);
    if cs.None? then (t, false)
    else
      var (t1, ok) := ApplyGroup(t, cs.value);
      GroupRevision(t, cs.value);
      if !ok then (t1, false)
      else if !cs.value.hasMore then (t1, true)
      else Drain(t1, feed, k + 1, bound)
  }

  // ---- What counts as a change --------------------------------------------

  /** Some deleted token is known to the table. */
  predicate DeletesTouch(t: Table, tokens: seq<string>) {
    exists k :: 0 <= k < |tokens| && tokens[k] in t.idxOf
  }

  /** Some item that is reached is live and well-formed, or is a tombstone of a token known by then. */
  ghost predicate ItemsTouch(t: Table, items: seq<Record>)
    requires WF(t)
    decreases |items|
  {
    items != [] && ApplyRecord(t, items[0]).Some?
    && (!items[0].deleted || items[0].token in t.idxOf || ItemsTouch(ApplyRecord(t, items[0]).value, items[1..]))
  }

  ghost predicate GroupTouches(t: Table, cs: ChangeSet)
    requires WF(t)
  {
    DeletesTouch(t, cs.deletedTokens) || ItemsTouch(ApplyDeletes(t, cs.deletedTokens), cs.items)
  }

  /** Some round of the drain touches a slot. */
  ghost predicate DrainTouches(t: Table, feed: Feed, k: nat, bound: int)
    requires WF(t) && Progresses(feed, bound)
    decreases bound - t.revision
  {
    var cs := feed(k, t.revision);
    cs.Some? &&
    (GroupTouches(t, cs.value) ||
     (GroupRevision(t, cs.value);
      ApplyGroup(t, cs.value).1 && cs.value.hasMore && DrainTouches(ApplyGroup(t, cs.value).0, feed, k + 1, bound)))
  }

  /** Deletions keep the token index, so which of them touch the table is read off it beforehand. */
  lemma DeletesTouchStep(t: Table, tokens: seq<string>)
    requires WF(t) && tokens != []
    ensures DeletesTouch(t, tokens) <==> tokens[0] in t.idxOf || DeletesTouch(Delete(t, tokens[0]), tokens[1..])
  {
    var rest := tokens[1..];
    if k :| 0 <= k < |tokens| && tokens[k] in t.idxOf {
      if k > 0 {
        assert rest[k - 1] == tokens[k];
      }
    }
    if k :| 0 <= k < |rest| && rest[k] in t.idxOf {
      assert tokens[k + 1] == rest[k];
    }
  }

  /** Items touch the table exactly when one that is reached, none before it being malformed, is a live record or
      the tombstone of a token the table knew from the start. */
  lemma {:induction false} ItemsTouchIff(t: Table, items: seq<Record>)
    requires WF(t)
    ensures ItemsTouch(t, items) <==>
      exists k :: 0 <= k < |items| && Touches(t, items, k)
    decreases |items|
  {
    if items != [] && ApplyRecord(t, items[0]).Some? {
      if items[0].deleted && items[0].token !in t.idxOf {
        var rest := items[1..];
        ItemsTouchIff(t, rest);
        if k :| 0 <= k < |items| && Touches(t, items, k) {
          assert k > 0 && rest[k - 1] == items[k];
          assert forall j :: 0 <= j < |rest| ==> rest[j] == items[j + 1];
          assert Touches(t, rest, k - 1);
        }
        if k :| 0 <= k < |rest| && Touches(t, rest, k) {
          assert forall j :: 1 <= j < |items| ==> items[j] == rest[j - 1];
          assert Touches(t, items, k + 1);
        }
      } else {
        assert Touches(t, items, 0);
      }
    }
  }

  predicate Touches(t: Table, items: seq<Record>, k: int)
    requires 0 <= k < |items|
  {
    && (forall j :: 0 <= j <= k ==> items[j].deleted || items[j].slot.Some?)
    && (items[k].deleted ==> items[k].token in t.idxOf)
  }

  lemma {:induction false} ItemsRevision(t: Table, items: seq<Record>)
    requires WF(t)
    ensures ApplyItems(t, items).0.revision == t.revision
    decreases |items|
  {
    if items != [] && ApplyRecord(t, items[0]).Some? {
      ItemsRevision(ApplyRecord(t, items[0]).value, items[1..]);
    }
  }

  lemma {:induction false} DeletesRevision(t: Table, tokens: seq<string>)
    requires WF(t)
    ensures ApplyDeletes(t, tokens).revision == t.revision
    decreases |tokens|
  {
    if tokens != [] {
      DeletesRevision(Delete(t, tokens[0]), tokens[1..]);
    }
  }

  /** The cursor never moves back, and after a failed group it has not moved at all. */
  lemma GroupRevision(t: Table, cs: ChangeSet)
    requires WF(t)
    ensures ApplyGroup(t, cs).1 ==> ApplyGroup(t, cs).0.revision == Max(t.revision, cs.revision)
    ensures !ApplyGroup(t, cs).1 ==> ApplyGroup(t, cs).0.revision == t.revision
  {
    DeletesRevision(t, cs.deletedTokens);
    ItemsRevision(ApplyDeletes(t, cs.deletedTokens), cs.items);
  }

  // ---- The methods --------------------------------------------------------

  method MarkDeletedAt(t: RuntimeTable, idx: int)
    requires t.Valid() && 0 <= idx < |t.rows|
    modifies t
    ensures t.Valid() && t.View() == MarkDeleted(old(t.View()), idx)
  {
    t.RemoveFromIndexes(idx);
    t.rows := t.rows[idx := t.rows[idx].(status := DELETED)];
    if t.size > 0 {
      t.size := t.size - 1;
    }
  }

  /** The tags of a slot are not stored beside it: they are read back from the tag index. */
  method OldTagsFor(t: RuntimeTable, idx: int) returns (tags: seq<string>)
    ensures TagSet(tags) == TagsOf(t.tagIdx, idx)
  {
    tags := [];
    var todo := t.tagIdx.Keys;
    while todo != {}
      invariant todo <= t.tagIdx.Keys
      invariant forall tag :: tag in tags <==> tag in t.tagIdx.Keys - todo && idx in Bucket(t.tagIdx, tag)
      decreases todo
    {
      var tag :| tag in todo;
      todo := todo - {tag};
      if idx in t.tagIdx[tag] {
        tags := tags + [tag];
      }
    }
  }

  method UpsertSlot(t: RuntimeTable, slot: Slot)
    requires t.Valid() && WF(t.View())
    modifies t
    ensures t.Valid() && t.View() == Upsert(old(t.View()), slot)
  {
    if slot.token in t.idxOf {
      var existing := t.idxOf[slot.token];
      var oldTags := OldTagsFor(t, existing);
      t.UpdateSlot(existing, slot, oldTags);
    } else {
      var _ := t.AppendSlot(slot);
    }
  }

  method ApplyDeletedTokens(t: RuntimeTable, tokens: seq<string>) returns (changed: bool)
    requires t.Valid() && WF(t.View())
    modifies t
    ensures t.Valid() && t.View() == ApplyDeletes(old(t.View()), tokens)
    ensures changed <==> DeletesTouch(old(t.View()), tokens)
    ensures !changed ==> t.View() == old(t.View())
  {
    hide DeletesTouch;
    changed := false;
    assert tokens[0..] == tokens;
    for k := 0 to |tokens|
      invariant t.Valid() && WF(t.View())
      invariant ApplyDeletes(t.View(), tokens[k..]) == ApplyDeletes(old(t.View()), tokens)
      invariant changed || DeletesTouch(t.View(), tokens[k..]) <==> DeletesTouch(old(t.View()), tokens)
      invariant !changed ==> t.View() == old(t.View())
    {
      DeletesTouchStep(t.View(), tokens[k..]);
      assert tokens[k..][1..] == tokens[k + 1..];
      if tokens[k] in t.idxOf {
        MarkDeletedAt(t, t.idxOf[tokens[k]]);
        changed := true;
      }
    }
    NothingTouched(t.View());
  }

  lemma NothingTouched(t: Table)
    requires WF(t)
    ensures !DeletesTouch(t, []) && !ItemsTouch(t, [])
  {
  }

  method ApplyChangedItems(t: RuntimeTable, items: seq<Record>) returns (changed: bool, ok: bool)
    requires t.Valid() && WF(t.View())
    modifies t
    ensures t.Valid() && (t.View(), ok) == ApplyItems(old(t.View()), items)
    ensures changed <==> ItemsTouch(old(t.View()), items)
    ensures !changed ==> t.View() == old(t.View())
  {
    changed := false;
    assert items[0..] == items;
    for k := 0 to |items|
      invariant t.Valid() && WF(t.View())
      invariant ApplyItems(t.View(), items[k..]) == ApplyItems(old(t.View()), items)
      invariant changed || ItemsTouch(t.View(), items[k..]) <==> ItemsTouch(old(t.View()), items)
      invariant !changed ==> t.View() == old(t.View())
    {
      assert items[k..][1..] == items[k + 1..];
      var record := items[k];
      if record.deleted {
        if record.token in t.idxOf {
          MarkDeletedAt(t, t.idxOf[record.token]);
          changed := true;
        }
        continue;
      }
      if record.slot.None? {
        return changed, false;
      }
      UpsertSlot(t, record.slot.value.(token := record.token));
      changed := true;
    }
    return changed, true;
  }

  /** Applies change groups until the feed has no more, an answer is missing, or a record fails.
      `changed` is reported exactly when some round touched a slot. */
  method ApplyChanges(t: RuntimeTable, feed: Feed, ghost bound: int) returns (changed: bool, ok: bool)
    requires t.Valid() && WF(t.View()) && Progresses(feed, bound)
    modifies t
    ensures t.Valid() && (t.View(), ok) == Drain(old(t.View()), feed, 0, bound)
    ensures changed <==> DrainTouches(old(t.View()), feed, 0, bound)
    ensures !changed ==> t.View() == old(t.View()).(revision := t.revision)
  {
    hide DeletesTouch, ItemsTouch;
    changed := false;
    var k := 0;
    while true
      invariant t.Valid() && WF(t.View())
      invariant Drain(t.View(), feed, k, bound) == Drain(old(t.View()), feed, 0, bound)
      invariant changed || DrainTouches(t.View(), feed, k, bound) <==> DrainTouches(old(t.View()), feed, 0, bound)
      invariant !changed ==> t.View() == old(t.View()).(revision := t.revision)
      decreases bound - t.revision
    {
      ghost var before := t.View();
      var answer := feed(k, t.revision);
      if answer.None? {
        return changed, false;
      }
      var cs := answer.value;
      var c := ApplyDeletedTokens(t, cs.deletedTokens);
      changed := changed || c;
      c, ok := ApplyChangedItems(t, cs.items);
      changed := changed || c;
      GroupRevision(before, cs);
      DeletesRevision(before, cs.deletedTokens);
      if !ok {
        return;
      }
      if cs.revision > t.revision {
        t.revision := cs.revision;
      }
      if !cs.hasMore {
        return;
      }
      k := k + 1;
    }
  }

  /** A snapshot load: live items in order, later duplicates rewriting earlier ones. */
  ghost function Load(t: Table, items: seq<Record>): (r: (Table, bool))
    requires WF(t)
    ensures WF(r.0)
    decreases |items|
  {
    if items == [] then (t, true)
    else if items[0].deleted then Load(t, items[1..])
    else if items[0].slot.None? then (t, false)
    else Load(Upsert(t, items[0].slot.value.(token := items[0].token)), items[1..])
  }

  method Bootstrap(items: seq<Record>, revision: int) returns (t: RuntimeTable, ok: bool)
    ensures fresh(t) && t.Valid() && WF(t.View())
    ensures ok == Load(EMPTY, items).1
    ensures ok ==> t.View() == Load(EMPTY, items).0.(revision := revision)
  {
    t := new RuntimeTable();
    for k := 0 to |items|
      invariant t.Valid() && WF(t.View()) && fresh(t)
      invariant Load(t.View(), items[k..]) == Load(EMPTY, items)
    {
      assert items[k..][1..] == items[k + 1..];
      if items[k].deleted {
        continue;
      }
      if items[k].slot.None? {
        return t, false;
      }
      UpsertSlot(t, items[k].slot.value.(token := items[k].token));
    }
    t.revision := revision;
    return t, true;
  }

  // ---- The size field -----------------------------------------------------

  ghost function LiveSlots(t: Table): set<int> {
    set i | 0 <= i < |t.rows| && t.rows[i].status != DELETED
  }

  ghost predicate SizeIsLive(t: Table) {
    t.size == |LiveSlots(t)|
  }

  lemma LiveAfterSet(t: Table, i: int, r: Row)
    requires 0 <= i < |t.rows|
    ensures |LiveSlots(SetRow(t, i, r))| + (if t.rows[i].status != DELETED then 1 else 0)
      == |LiveSlots(t)| + if r.status != DELETED then 1 else 0
  {
    var a, b := LiveSlots(t), LiveSlots(SetRow(t, i, r));
    assert b - {i} == a - {i};
    SizeWithout(a, i);
    SizeWithout(b, i);
  }

  lemma SizeWithout(s: set<int>, i: int)
    ensures |s| == |s - {i}| + if i in s then 1 else 0
  {
    if i !in s {
      assert s - {i} == s;
    }
  }

  lemma LiveAfterAppend(t: Table, s: Slot)
    ensures |LiveSlots(Append(t, s))| == |LiveSlots(t)| + if s.status != DELETED then 1 else 0
  {
    var n := |t.rows|;
    assert LiveSlots(Append(t, s)) == LiveSlots(t) + if s.status != DELETED then {n} else {};
  }

  /** When one record keeps the size equal to the number of live slots. A tombstone does unless it repeats
      one while other slots live. A live record does when its slot was live before or is new; writing over
      a tombstone loses count. */
  lemma SizeKeptIff(t: Table, rec: Record)
    requires WF(t) && SizeIsLive(t) && ApplyRecord(t, rec).Some?
    ensures SizeIsLive(ApplyRecord(t, rec).value) <==>
      if rec.deleted then rec.token in t.idxOf && t.rows[t.idxOf[rec.token]].status == DELETED ==> t.size == 0
      else if rec.token in t.idxOf then
        (t.rows[t.idxOf[rec.token]].status == DELETED <==> rec.slot.value.status == DELETED)
      else rec.slot.value.status != DELETED
  {
    hide SizeIsLive;
    if rec.token in t.idxOf {
      var i := t.idxOf[rec.token];
      if rec.deleted {
        LiveAfterSet(t, i, t.rows[i].(status := DELETED));
        SizeMeans(t, MarkDeleted(t, i), SetRow(t, i, t.rows[i].(status := DELETED)));
      } else {
        var s := rec.slot.value.(token := rec.token);
        LiveAfterSet(t, i, Rewrite(t.rows[i], s));
        SizeMeans(t, Update(t, i, s, t.tags[i]), SetRow(t, i, Rewrite(t.rows[i], s)));
      }
    } else if !rec.deleted {
      var s := rec.slot.value.(token := rec.token);
      LiveAfterAppend(t, s);
      SizeMeans(t, Append(t, s), Append(t, s));
    }
  }

  lemma SizeMeans(t: Table, t': Table, same: Table)
    requires t'.rows == same.rows
    ensures SizeIsLive(t) <==> t.size == |LiveSlots(t)|
    ensures SizeIsLive(t') <==> t'.size == |LiveSlots(same)|
  {
    assert LiveSlots(t') == LiveSlots(same);
  }

  /** Adding a deleted account again leaves the size one short. */
  lemma ReAddedTokenLosesCount(live: Slot)
    requires live.status == ACTIVE
    ensures exists t: Table, rec: Record ::
      WF(t) && SizeIsLive(t) && ApplyRecord(t, rec).Some? && !SizeIsLive(ApplyRecord(t, rec).value)
  {
    var t := Delete(Append(EMPTY, live), live.token);
    var rec := Record(live.token, false, Some(live));
    LiveAfterAppend(EMPTY, live);
    LiveAfterSet(Append(EMPTY, live), 0, Append(EMPTY, live).rows[0].(status := DELETED));
    assert LiveSlots(EMPTY) == {};
    assert LiveSlots(t) == LiveSlots(SetRow(Append(EMPTY, live), 0, Append(EMPTY, live).rows[0].(status := DELETED)));
    assert SizeIsLive(t);
    SizeKeptIff(t, rec);
    assert ApplyRecord(t, rec).Some? && !SizeIsLive(ApplyRecord(t, rec).value);
  }
}
