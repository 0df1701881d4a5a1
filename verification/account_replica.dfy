/** The table as a replica of the repository: what a change feed guarantees, and what the table
    agrees with after every round of it. */
module AccountReplica {
  import opened Wrappers
  import opened AccountModel
  import opened AccountSync

  datatype Entry = Entry(revision: int, record: Record)

  /** The stored accounts, tombstones included, and the last revision handed out. */
  datatype Repo = Repo(entries: map<string, Entry>, revision: int)

  ghost predicate RepoWF(r: Repo) {
    forall tok :: tok in r.entries ==> r.entries[tok].record.token == tok && r.entries[tok].revision <= r.revision
  }

  /** Writes take fresh revisions and never drop a token. */
  ghost predicate Evolves(r: Repo, r': Repo) {
    && RepoWF(r') && r.revision <= r'.revision
    && (forall tok :: tok in r.entries ==> tok in r'.entries)
    && (forall tok :: tok in r'.entries ==>
        (tok in r.entries && r'.entries[tok] == r.entries[tok]) || r'.entries[tok].revision > r.revision)
  }

  ghost predicate InGroup(r: Repo, g: int, tok: string) {
    tok in r.entries && r.entries[tok].revision == g
  }

  /** A scan answers with the complete next revision group after the cursor, or with the repository's
      revision when nothing is newer. */
  ghost predicate IsScan(r: Repo, since: int, cs: ChangeSet) {
    if forall tok :: tok in r.entries ==> r.entries[tok].revision <= since then
      cs == ChangeSet(r.revision, [], [], false)
    else
      && cs.revision > since
      && (forall tok :: tok in r.entries ==> r.entries[tok].revision <= since || cs.revision <= r.entries[tok].revision)
      && (forall k :: 0 <= k < |cs.items| ==>
          InGroup(r, cs.revision, cs.items[k].token) && r.entries[cs.items[k].token].record == cs.items[k])
      && (forall k :: 0 <= k < |cs.deletedTokens| ==>
          InGroup(r, cs.revision, cs.deletedTokens[k]) && r.entries[cs.deletedTokens[k]].record.deleted)
      && (forall tok :: InGroup(r, cs.revision, tok) ==>
          (exists k :: 0 <= k < |cs.items| && cs.items[k].token == tok) || tok in cs.deletedTokens)
      && (exists tok :: InGroup(r, cs.revision, tok))
      && (cs.hasMore <==> cs.revision < r.revision)
  }

  /** The slot of a live token carries its record's projection; a tombstoned one is not in use.
      Feedback may expire a slot and spend quota, so only a sync-only table agrees exactly. */
  ghost predicate Agrees(exact: bool, t: Table, tok: string, rec: Record)
    requires WF(t)
  {
    if rec.deleted then
      tok in t.idxOf ==>
        var row := t.rows[t.idxOf[tok]];
        row.status == DELETED || (!exact && row.status == EXPIRED)
    else
      && rec.slot.Some? && tok in t.idxOf
      && var row := t.rows[t.idxOf[tok]];
      && (forall tag :: tag in t.tags[t.idxOf[tok]] <==> tag in rec.slot.value.tags)
      && Carries(row, rec.slot.value)
      && (row.status == rec.slot.value.status || (!exact && row.status == EXPIRED))
      && (exact ==> Holds(row, rec.slot.value))
  }

  /** The table agrees with every record at or below its cursor. */
  ghost predicate Covered(exact: bool, t: Table, r: Repo)
    requires WF(t)
  {
    forall tok :: tok in r.entries && r.entries[tok].revision <= t.revision ==>
      Agrees(exact, t, tok, r.entries[tok].record)
  }

  /** One token's slot and tags are untouched. */
  ghost predicate SameToken(t: Table, t': Table, tok: string)
    requires WF(t) && WF(t')
  {
    && (tok in t.idxOf <==> tok in t'.idxOf)
    && (tok in t.idxOf ==>
        t'.idxOf[tok] == t.idxOf[tok] && t'.rows[t'.idxOf[tok]] == t.rows[t.idxOf[tok]]
        && t'.tags[t'.idxOf[tok]] == t.tags[t.idxOf[tok]])
  }

  lemma DeleteStep(t: Table, token: string)
    requires WF(t)
    ensures var t' := Delete(t, token);
      && (forall tok :: tok != token ==> SameToken(t, t', tok))
      && (token in t'.idxOf ==> t'.rows[t'.idxOf[token]].status == DELETED)
      && t'.revision == t.revision
  {
  }

  lemma UpsertStep(t: Table, s: Slot)
    requires WF(t)
    ensures var t' := Upsert(t, s);
      && (forall tok :: tok != s.token ==> SameToken(t, t', tok))
      && s.token in t'.idxOf
      && Holds(t'.rows[t'.idxOf[s.token]], s)
      && t'.tags[t'.idxOf[s.token]] == TagSet(s.tags)
      && t'.revision == t.revision
  {
    var t' := Upsert(t, s);
    if s.token in t.idxOf {
      var i := t.idxOf[s.token];
      assert t'.tags[i] == (t.tags[i] - t.tags[i]) + TagSet(s.tags) == TagSet(s.tags);
      WrittenHolds(t.rows[i], s);
    } else {
      WrittenHolds(FreshRow(s), s);
    }
  }

  /** A record's own token agrees with it afterwards; the others keep what they had. */
  lemma RecordStep(t: Table, rec: Record)
    requires WF(t) && ApplyRecord(t, rec).Some?
    ensures var t' := ApplyRecord(t, rec).value;
      && (forall tok :: tok != rec.token ==> SameToken(t, t', tok))
      && Agrees(true, t', rec.token, rec)
      && t'.revision == t.revision
  {
    if rec.deleted {
      DeleteStep(t, rec.token);
    } else {
      var s := rec.slot.value.(token := rec.token);
      UpsertStep(t, s);
    }
  }

  lemma {:induction false} DeletesStep(t: Table, tokens: seq<string>)
    requires WF(t)
    ensures var t' := ApplyDeletes(t, tokens);
      && (forall tok :: tok !in tokens ==> SameToken(t, t', tok))
      && (forall tok :: tok in tokens && tok in t'.idxOf ==> t'.rows[t'.idxOf[tok]].status == DELETED)
    decreases |tokens|
  {
    if tokens != [] {
      var t1 := Delete(t, tokens[0]);
      DeleteStep(t, tokens[0]);
      DeletesStep(t1, tokens[1..]);
      var t' := ApplyDeletes(t, tokens);
      forall tok | tok !in tokens ensures SameToken(t, t', tok) {
        assert tok !in tokens[1..] && SameToken(t1, t', tok) && SameToken(t, t1, tok);
      }
      forall tok | tok in tokens && tok in t'.idxOf ensures t'.rows[t'.idxOf[tok]].status == DELETED {
        if tok !in tokens[1..] {
          assert tok == tokens[0] && SameToken(t1, t', tok);
        }
      }
    }
  }

  /** Items that speak for one repository state leave every token they name in agreement with it. */
  lemma {:induction false} ItemsStep(t: Table, items: seq<Record>, r: Repo)
    requires WF(t)
    requires forall k :: 0 <= k < |items| ==> items[k].token in r.entries && r.entries[items[k].token].record == items[k]
    ensures var (t', ok) := ApplyItems(t, items);
      && (forall tok :: (forall k :: 0 <= k < |items| ==> items[k].token != tok) ==> SameToken(t, t', tok))
      && (ok ==> forall k :: 0 <= k < |items| ==> Agrees(true, t', items[k].token, items[k]))
    decreases |items|
  {
    if items != [] && ApplyRecord(t, items[0]).Some? {
      var t1 := ApplyRecord(t, items[0]).value;
      var rest := items[1..];
      RecordStep(t, items[0]);
      ItemsStep(t1, rest, r);
      var (t', ok) := ApplyItems(t, items);
      forall tok | forall k :: 0 <= k < |items| ==> items[k].token != tok ensures SameToken(t, t', tok) {
        assert forall k :: 0 <= k < |rest| ==> rest[k] == items[k + 1];
        assert tok != items[0].token;
        assert SameToken(t, t1, tok) && SameToken(t1, t', tok);
      }
      if ok {
        forall k | 0 <= k < |items| ensures Agrees(true, t', items[k].token, items[k]) {
          if k > 0 {
            assert rest[k - 1] == items[k];
          } else if j :| 0 <= j < |rest| && rest[j].token == items[0].token {
            assert rest[j] == items[0];
          } else {
            assert SameToken(t1, t', items[0].token);
          }
        }
      }
    }
  }

  lemma SameAgrees(exact: bool, t: Table, t': Table, tok: string, rec: Record)
    requires WF(t) && WF(t') && SameToken(t, t', tok) && Agrees(exact, t, tok, rec)
    ensures Agrees(exact, t', tok, rec)
  {
  }

  lemma ExactAgrees(exact: bool, t: Table, tok: string, rec: Record)
    requires WF(t) && Agrees(true, t, tok, rec)
    ensures Agrees(exact, t, tok, rec)
  {
  }

  lemma DeletedAgrees(exact: bool, t: Table, tok: string, rec: Record)
    requires WF(t) && rec.deleted && (tok in t.idxOf ==> t.rows[t.idxOf[tok]].status == DELETED)
    ensures Agrees(exact, t, tok, rec)
  {
  }

  lemma CursorAgrees(exact: bool, t: Table, revision: int, tok: string, rec: Record)
    requires WF(t) && Agrees(exact, t, tok, rec)
    ensures Agrees(exact, t.(revision := revision), tok, rec)
  {
  }

  /** One round of the feed, complete or broken off in the middle, keeps the table covered, and it
      never runs ahead of the repository. */
  lemma GroupCovers(exact: bool, t: Table, r: Repo, cs: ChangeSet)
    requires WF(t) && RepoWF(r) && t.revision <= r.revision && Covered(exact, t, r)
    requires IsScan(r, t.revision, cs)
    ensures var (t', ok) := ApplyGroup(t, cs);
      && Covered(exact, t', r) && t'.revision <= r.revision
      && (ok && !cs.hasMore ==> t'.revision == r.revision)
  {
    var (t', ok) := ApplyGroup(t, cs);
    GroupRevision(t, cs);
    if cs.items == [] && cs.deletedTokens == [] {
      assert t' == t.(revision := t'.revision);
      NothingNewer(r, t.revision, cs);
    } else {
      var t1 := ApplyDeletes(t, cs.deletedTokens);
      DeletesStep(t, cs.deletedTokens);
      ItemsStep(t1, cs.items, r);
      forall tok | tok in r.entries && r.entries[tok].revision <= t'.revision
        ensures Agrees(exact, t', tok, r.entries[tok].record)
      {
        TokenAfterGroup(exact, t, r, cs, tok);
      }
    }
  }

  lemma NothingNewer(r: Repo, since: int, cs: ChangeSet)
    requires IsScan(r, since, cs) && cs.items == [] && cs.deletedTokens == []
    ensures forall tok :: tok in r.entries ==> r.entries[tok].revision <= since
    ensures cs.revision == r.revision && !cs.hasMore
  {
    if tok :| tok in r.entries && r.entries[tok].revision > since {
      assert false;
    }
  }

  /** A group says nothing about a token at another revision. */
  lemma NotInGroup(r: Repo, since: int, cs: ChangeSet, tok: string)
    requires IsScan(r, since, cs) && (cs.items != [] || cs.deletedTokens != [])
    requires tok in r.entries && r.entries[tok].revision <= since
    ensures tok !in cs.deletedTokens && forall k :: 0 <= k < |cs.items| ==> cs.items[k].token != tok
  {
    assert forall k :: 0 <= k < |cs.deletedTokens| ==> InGroup(r, cs.revision, cs.deletedTokens[k]);
  }

  /** Items of a group carry the repository's records. */
  lemma GroupItems(r: Repo, since: int, cs: ChangeSet)
    requires IsScan(r, since, cs)
    ensures forall k :: 0 <= k < |cs.items| ==>
      cs.items[k].token in r.entries && r.entries[cs.items[k].token].record == cs.items[k]
  {
  }

  /** So its slot is untouched. */
  lemma ElsewhereKept(t: Table, r: Repo, cs: ChangeSet, tok: string)
    requires WF(t) && IsScan(r, t.revision, cs) && (cs.items != [] || cs.deletedTokens != [])
    requires tok in r.entries && r.entries[tok].revision <= t.revision
    ensures var t1 := ApplyDeletes(t, cs.deletedTokens);
      SameToken(t, t1, tok) && SameToken(t1, ApplyItems(t1, cs.items).0, tok)
  {
    NotInGroup(r, t.revision, cs, tok);
    GroupItems(r, t.revision, cs);
    hide IsScan, SameToken, WF;
    DeletesStep(t, cs.deletedTokens);
    ItemsStep(ApplyDeletes(t, cs.deletedTokens), cs.items, r);
  }

  /** A token of the group that no item names has been deleted, and its slot is left at that. */
  lemma DeletedInGroup(t: Table, r: Repo, cs: ChangeSet, tok: string)
    requires WF(t) && IsScan(r, t.revision, cs) && InGroup(r, cs.revision, tok) && cs.revision > t.revision
    requires forall k :: 0 <= k < |cs.items| ==> cs.items[k].token != tok
    ensures var t1 := ApplyDeletes(t, cs.deletedTokens);
      && r.entries[tok].record.deleted && (tok in t1.idxOf ==> t1.rows[t1.idxOf[tok]].status == DELETED)
      && SameToken(t1, ApplyItems(t1, cs.items).0, tok)
  {
    GroupItems(r, t.revision, cs);
    assert tok in cs.deletedTokens;
    hide SameToken, WF;
    DeletesStep(t, cs.deletedTokens);
    ItemsStep(ApplyDeletes(t, cs.deletedTokens), cs.items, r);
  }

  /** A token outside the group keeps its slot; a token inside a completed group gets its record. */
  lemma TokenAfterGroup(exact: bool, t: Table, r: Repo, cs: ChangeSet, tok: string)
    requires WF(t) && RepoWF(r) && Covered(exact, t, r) && IsScan(r, t.revision, cs)
    requires cs.items != [] || cs.deletedTokens != []
    requires tok in r.entries && r.entries[tok].revision <= ApplyGroup(t, cs).0.revision
    ensures Agrees(exact, ApplyGroup(t, cs).0, tok, r.entries[tok].record)
  {
    hide WF, RepoWF, Agrees, SameToken;
    var rec := r.entries[tok].record;
    var t1 := ApplyDeletes(t, cs.deletedTokens);
    var t2 := ApplyItems(t1, cs.items).0;
    GroupRevision(t, cs);
    if r.entries[tok].revision <= t.revision {
      ElsewhereKept(t, r, cs, tok);
      SameAgrees(exact, t, t1, tok, rec);
      SameAgrees(exact, t1, t2, tok, rec);
    } else if k :| 0 <= k < |cs.items| && cs.items[k].token == tok {
      GroupItems(r, t.revision, cs);
      ItemsStep(t1, cs.items, r);
      ExactAgrees(exact, t2, tok, rec);
    } else {
      assert InGroup(r, cs.revision, tok);
      DeletedInGroup(t, r, cs, tok);
      DeletedAgrees(exact, t1, tok, rec);
      SameAgrees(exact, t1, t2, tok, rec);
    }
    CursorAgrees(exact, t2, ApplyGroup(t, cs).0.revision, tok, rec);
  }

  /** Writes to the repository leave the table covered: whatever they touch is past the cursor. */
  lemma WriteCovers(exact: bool, t: Table, r: Repo, r': Repo)
    requires WF(t) && t.revision <= r.revision && Covered(exact, t, r) && Evolves(r, r')
    ensures Covered(exact, t, r') && t.revision <= r'.revision
  {
  }

  lemma RoundCovers(exact: bool, t: Table, r: Repo, r': Repo, cs: ChangeSet)
    requires WF(t) && RepoWF(r) && t.revision <= r.revision && Covered(exact, t, r)
    requires IsScan(r, t.revision, cs) && Evolves(r, r')
    ensures var g := ApplyGroup(t, cs);
      && Covered(exact, g.0, r) && g.0.revision <= r.revision
      && Covered(exact, g.0, r') && g.0.revision <= r'.revision && RepoWF(r')
      && (g.1 && !cs.hasMore ==> g.0.revision == r.revision)
      && (g.1 ==> g.0.revision == Max(t.revision, cs.revision))
  {
    GroupCovers(exact, t, r, cs);
    GroupRevision(t, cs);
    WriteCovers(exact, ApplyGroup(t, cs).0, r, r');
  }

  /** A whole `ApplyChanges`, with the repository changing between its scans: the table stays covered
      by the repository its last scan saw, and an error-free one has caught up with it. */
  lemma {:induction false} DrainCovers(exact: bool, t: Table, feed: Feed, k: nat, bound: int, repos: nat -> Repo)
    returns (n: nat)
    requires WF(t) && Progresses(feed, bound)
    requires RepoWF(repos(k)) && t.revision <= repos(k).revision && Covered(exact, t, repos(k))
    requires forall j: nat :: Evolves(repos(j), repos(j + 1))
    requires forall j: nat, since: int {:trigger feed(j, since)} ::
      feed(j, since).Some? ==> IsScan(repos(j), since, feed(j, since).value)
    ensures n >= k
    ensures var (t', ok) := Drain(t, feed, k, bound);
      && Covered(exact, t', repos(n)) && t'.revision <= repos(n).revision
      && (ok ==> t'.revision == repos(n).revision)
    decreases bound - t.revision
  {
    hide Covered, IsScan, Evolves, ApplyGroup, RepoWF;
    n := k;
    var answer := feed(k, t.revision);
    if answer.Some? {
      RoundCovers(exact, t, repos(k), repos(k + 1), answer.value);
      var r := ApplyGroup(t, answer.value);
      if r.1 && answer.value.hasMore {
        n := DrainCovers(exact, r.0, feed, k + 1, bound, repos);
      }
    }
  }

  /** A runtime snapshot holds exactly the live records. */
  ghost predicate IsSnapshot(r: Repo, items: seq<Record>) {
    && (forall k :: 0 <= k < |items| ==>
        items[k].token in r.entries && r.entries[items[k].token].record == items[k] && !items[k].deleted)
    && (forall tok :: tok in r.entries && !r.entries[tok].record.deleted ==>
        exists k :: 0 <= k < |items| && items[k].token == tok)
  }

  lemma {:induction false} LoadIsItems(t: Table, items: seq<Record>)
    requires WF(t) && forall k :: 0 <= k < |items| ==> !items[k].deleted
    ensures Load(t, items) == ApplyItems(t, items)
    decreases |items|
  {
    if items != [] && items[0].slot.Some? {
      LoadIsItems(ApplyRecord(t, items[0]).value, items[1..]);
    }
  }

  /** A successful snapshot load is covered, exactly, at the snapshot's revision. */
  lemma LoadCovers(r: Repo, items: seq<Record>)
    requires RepoWF(r) && IsSnapshot(r, items) && Load(EMPTY, items).1
    ensures Covered(true, Load(EMPTY, items).0.(revision := r.revision), r)
  {
    var t := Load(EMPTY, items).0;
    LoadIsItems(EMPTY, items);
    ItemsStep(EMPTY, items, r);
    forall tok | tok in r.entries ensures Agrees(true, t.(revision := r.revision), tok, r.entries[tok].record) {
      if r.entries[tok].record.deleted {
        assert SameToken(EMPTY, t, tok);
      } else {
        var k :| 0 <= k < |items| && items[k].token == tok;
        assert Agrees(true, t, tok, items[k]);
      }
    }
  }

  /** The record-derived columns of two slots are equal. */
  ghost predicate SameColumns(a: Row, b: Row) {
    b == a.(inflight := b.inflight, health := b.health, cooling := b.cooling)
  }

  /** A drained replica equals a fresh load of the same repository on every live token: exactly when
      only syncs ran, and in pool, totals, windows and tags whatever else ran. */
  lemma DrainedIsBootstrap(exact: bool, t: Table, r: Repo, items: seq<Record>, tok: string)
    requires WF(t) && RepoWF(r) && Covered(exact, t, r) && t.revision == r.revision
    requires IsSnapshot(r, items) && Load(EMPTY, items).1
    requires tok in r.entries && !r.entries[tok].record.deleted
    ensures var b := Load(EMPTY, items).0;
      && tok in t.idxOf && tok in b.idxOf
      && var x := t.rows[t.idxOf[tok]];
      var y := b.rows[b.idxOf[tok]];
      && t.tags[t.idxOf[tok]] == b.tags[b.idxOf[tok]]
      && x.pool == y.pool && x.total == y.total && x.window == y.window
      && (x.status == y.status || (!exact && x.status == EXPIRED))
      && (exact ==> SameColumns(x, y))
  {
    LoadCovers(r, items);
    var b := Load(EMPTY, items).0.(revision := r.revision);
    assert Agrees(true, b, tok, r.entries[tok].record);
    assert Agrees(exact, t, tok, r.entries[tok].record);
    var i, j := t.idxOf[tok], b.idxOf[tok];
    assert forall tag :: tag in t.tags[i] <==> tag in b.tags[j];
    HoldsSame(t.rows[i], b.rows[j], r.entries[tok].record.slot.value);
  }
}
