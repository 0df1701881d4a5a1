/** The local media cache of one media type: files on disk, an index row per file, and least-recently
    used trimming to a low watermark (app/platform/storage). */
module MediaCache {
  import opened Wrappers
  import opened Text

  datatype MediaType = Image | Video

  /** What a directory holds under a name. */
  datatype Entry = Entry(isDir: bool, size: nat, mtime: int)

  datatype Row = Row(size: nat, created: int, updated: int)

  type Entries = map<string, Entry>
  type Rows = map<string, Row>

  // ---- Names --------------------------------------------------------------

  /** The suffix from the last dot on, or nothing without a dot. */
  function Ext(name: string): string {
    if name == "" then ""
    else
      var last := name[|name| - 1];
      if last == '.' then "."
      else
        var e := Ext(name[..|name| - 1]);
        if e == "" then "" else e + [last]
  }

  function Exts(t: MediaType): set<string> {
    match t
    case Image => {".jpg", ".jpeg", ".png", ".gif", ".webp", ".bmp"}
    case Video => {".mp4", ".mov", ".m4v", ".webm", ".avi", ".mkv"}
  }

  predicate Allowed(t: MediaType, name: string) {
    Lower(Ext(name)) in Exts(t)
  }

  predicate IsTemp(name: string) {
    |name| >= 5 && name[|name| - 5..] == ".part"
  }

  lemma ExtOfThree(base: string, a: char, b: char, c: char)
    requires a != '.' && b != '.' && c != '.'
    ensures Ext(base + ['.', a, b, c]) == ['.', a, b, c]
  {
    var n := base + ['.', a, b, c];
    assert n[..|n| - 1] == base + ['.', a, b];
    assert n[..|n| - 1][..|n| - 2] == base + ['.', a];
    assert n[..|n| - 1][..|n| - 2][..|n| - 3] == base + ['.'];
    assert Ext(base + ['.']) == ".";
    assert Ext(base + ['.', a]) == ['.', a];
    assert Ext(base + ['.', a, b]) == ['.', a, b];
  }

  /** The suffixes the store writes under are allowed for their media type. */
  lemma SavedNamesAllowed(base: string)
    ensures Allowed(Image, base + ".jpg") && Allowed(Image, base + ".png") && Allowed(Video, base + ".mp4")
  {
    ExtOfThree(base, 'j', 'p', 'g');
    ExtOfThree(base, 'p', 'n', 'g');
    ExtOfThree(base, 'm', 'p', '4');
    assert ".jpg" == ['.', 'j', 'p', 'g'] && ".png" == ['.', 'p', 'n', 'g'] && ".mp4" == ['.', 'm', 'p', '4'];
    LowerKeeps(".jpg");
    LowerKeeps(".png");
    LowerKeeps(".mp4");
  }

  lemma {:induction false} ExtOf(base: string, e: string)
    requires '.' !in e
    ensures Ext(base + "." + e) == "." + e
  {
    var n := base + "." + e;
    if e == "" {
      assert n[|n| - 1] == '.';
    } else {
      var k := |e| - 1;
      ExtOf(base, e[..k]);
      assert n[..|n| - 1] == base + "." + e[..k] && n[|n| - 1] == e[k] && e[k] in e;
      assert "." + e == "." + e[..k] + [e[k]];
    }
  }

  lemma {:induction false} NoExt(name: string)
    requires '.' !in name
    ensures Ext(name) == ""
  {
    if name != "" {
      assert name[|name| - 1] in name;
      NoExt(name[..|name| - 1]);
    }
  }

  /** A media name ends in a dot and one of its type's suffixes, in letters of either case. */
  lemma AllowedMeans(base: string, e: string)
    requires '.' !in e
    ensures Allowed(Image, base + "." + e) <==> "." + Lower(e) in {".jpg", ".jpeg", ".png", ".gif", ".webp", ".bmp"}
    ensures Allowed(Video, base + "." + e) <==> "." + Lower(e) in {".mp4", ".mov", ".m4v", ".webm", ".avi", ".mkv"}
    ensures !Allowed(Image, e) && !Allowed(Video, e)
  {
    ExtOf(base, e);
    NoExt(e);
    assert ("." + e)[1..] == e && Lower("." + e) == "." + Lower(e);
  }

  // ---- Order --------------------------------------------------------------

  predicate NameLess(a: string, b: string) {
    b != "" && (a == "" || a[0] < b[0] || (a[0] == b[0] && NameLess(a[1..], b[1..])))
  }

  lemma {:induction false} NameTotal(a: string, b: string)
    ensures NameLess(a, b) || a == b || NameLess(b, a)
    ensures !(NameLess(a, b) && NameLess(b, a)) && (a == b ==> !NameLess(a, b))
  {
    if a != "" && b != "" && a[0] == b[0] {
      NameTotal(a[1..], b[1..]);
      assert a == [a[0]] + a[1..] && b == [b[0]] + b[1..];
    }
  }

  lemma {:induction false} NameTrans(a: string, b: string, c: string)
    requires NameLess(a, b) && NameLess(b, c)
    ensures NameLess(a, c)
  {
    if a != "" && a[0] == b[0] == c[0] {
      NameTrans(a[1..], b[1..], c[1..]);
    }
  }

  /** The names agree up to k, where one has the smaller character or only the other one goes on. */
  predicate DiffersAt(a: string, b: string, k: nat) {
    k <= |a| && k < |b| && a[..k] == b[..k] && (k == |a| || a[k] < b[k])
  }

  lemma SameHead(a: string, b: string, k: nat)
    requires 0 < k <= |a| && k <= |b| && a[..k] == b[..k]
    ensures a[0] == b[0]
  {
    assert a[..k][0] == a[0] && b[..k][0] == b[0];
  }

  /** One name comes before another by its first difference. */
  lemma {:induction false} NameLessMeans(a: string, b: string)
    ensures NameLess(a, b) <==> exists k: nat :: DiffersAt(a, b, k)
  {
    if a != "" && b != "" && a[0] == b[0] {
      NameLessMeans(a[1..], b[1..]);
      if k: nat :| DiffersAt(a, b, k) {
        assert k > 0 && a[1..][..k - 1] == a[..k][1..] && b[1..][..k - 1] == b[..k][1..];
        assert DiffersAt(a[1..], b[1..], k - 1);
      }
      if k: nat :| DiffersAt(a[1..], b[1..], k) {
        assert a[..k + 1] == [a[0]] + a[1..][..k] && b[..k + 1] == [b[0]] + b[1..][..k];
        assert DiffersAt(a, b, k + 1);
      }
    } else {
      if b != "" && (a == "" || a[0] < b[0]) {
        assert DiffersAt(a, b, 0);
      }
      if k: nat :| DiffersAt(a, b, k) {
        if k > 0 {
          SameHead(a, b, k);
        }
      }
    }
  }

  /** `updated_at ASC, name ASC`. */
  predicate Older(rows: Rows, a: string, b: string)
    requires a in rows && b in rows
  {
    rows[a].updated < rows[b].updated || (rows[a].updated == rows[b].updated && NameLess(a, b))
  }

  lemma OlderTotal(rows: Rows, a: string, b: string)
    requires a in rows && b in rows && a != b
    ensures Older(rows, a, b) <==> !Older(rows, b, a)
  {
    NameTotal(a, b);
  }

  lemma OlderTrans(rows: Rows, a: string, b: string, c: string)
    requires a in rows && b in rows && c in rows && Older(rows, a, b) && Older(rows, b, c)
    ensures Older(rows, a, c)
  {
    if rows[a].updated == rows[b].updated == rows[c].updated {
      NameTrans(a, b, c);
    }
  }

  /** All rows, least recently updated first. */
  ghost predicate IsListing(rows: Rows, c: seq<string>) {
    && (forall n :: n in c <==> n in rows)
    && (forall i, j :: 0 <= i < j < |c| ==> Older(rows, c[i], c[j]))
  }

  lemma {:induction false} OldestExists(rows: Rows, names: set<string>) returns (n: string)
    requires names != {} && names <= rows.Keys
    ensures n in names && forall m :: m in names && m != n ==> Older(rows, n, m)
    decreases names
  {
    n :| n in names;
    var rest := names - {n};
    assert forall m :: m in names ==> m == n || m in rest;
    if rest != {} {
      var m := OldestExists(rows, rest);
      OlderTotal(rows, n, m);
      if Older(rows, n, m) {
        forall x | x in names && x != n ensures Older(rows, n, x) {
          if x != m {
            OlderTrans(rows, n, m, x);
          }
        }
      } else {
        n := m;
      }
    }
  }

  // ---- Sizes --------------------------------------------------------------

  ghost function Total(rows: Rows): nat
    decreases |rows|
  {
    if rows == map[] then 0
    else
      var n :| n in rows;
      rows[n].size + Total(rows - {n})
  }

  lemma {:induction false} TotalWithout(rows: Rows, n: string)
    requires n in rows
    ensures Total(rows) == rows[n].size + Total(rows - {n})
    decreases |rows|
  {
    var m :| m in rows && Total(rows) == rows[m].size + Total(rows - {m});
    if m != n {
      TotalWithout(rows - {m}, n);
      TotalWithout(rows - {n}, m);
      assert rows - {m} - {n} == rows - {n} - {m};
    }
  }

  // ---- The index mirrors the files ----------------------------------------

  predicate IsMedia(t: MediaType, files: Entries, n: string) {
    n in files && !files[n].isDir && Allowed(t, n)
  }

  /** One row per allowed media file, carrying its size, and no other row. */
  ghost predicate Mirrors(t: MediaType, files: Entries, rows: Rows) {
    && (forall n :: n in rows <==> IsMedia(t, files, n))
    && (forall n :: n in rows ==> rows[n].size == files[n].size)
  }

  // ---- Trimming -----------------------------------------------------------

  /** The names among the first k that are not protected. */
  ghost function Evictable(c: seq<string>, k: nat, protected: set<string>): set<string>
    requires k <= |c|
  {
    set n | n in c[..k] && n !in protected
  }

  /** Trimming to the target: exactly the unprotected rows of the shortest oldest-first prefix that
      brings the total down to the target are evicted, or all unprotected ones when none does. */
  ghost predicate TrimmedAt(rows: Rows, target: int, protected: set<string>, c: seq<string>, k: nat, evicted: set<string>) {
    && IsListing(rows, c) && k <= |c|
    && evicted == Evictable(c, k, protected)
    && (k == |c| || Total(rows - evicted) <= target)
    && forall j :: 0 <= j < k ==> Total(rows - Evictable(c, j, protected)) > target
  }

  ghost predicate Trimmed(rows: Rows, limit: int, target: int, protected: set<string>, evicted: set<string>) {
    if limit <= 0 || Total(rows) <= limit then evicted == {}
    else exists c: seq<string>, k: nat :: TrimmedAt(rows, target, protected, c, k, evicted)
  }

  /** The newest row: the last of any listing. */
  ghost predicate IsNewest(rows: Rows, n: string) {
    n in rows && forall m :: m in rows && m != n ==> Older(rows, m, n)
  }

  ghost function NewestOf(rows: Rows): set<string> {
    set n | n in rows && IsNewest(rows, n)
  }

  lemma NewestUnique(rows: Rows, n: string)
    requires IsNewest(rows, n)
    ensures NewestOf(rows) == {n}
  {
    forall m | m in NewestOf(rows) ensures m == n {
      if m != n {
        OlderTotal(rows, m, n);
      }
    }
  }

  /** The newest row is the one updated last; among several, the one with the last name. */
  lemma NewestMeans(rows: Rows, n: string, m: string)
    requires n in NewestOf(rows) && m in rows && m != n
    ensures rows[m].updated < rows[n].updated || (rows[m].updated == rows[n].updated && NameLess(m, n))
  {
    assert Older(rows, m, n);
  }

  lemma NotOlderThanItself(rows: Rows, n: string)
    requires n in rows
    ensures !Older(rows, n, n)
  {
    NameTotal(n, n);
  }

  /** What trimming guarantees a reader: nothing protected is lost, eviction goes strictly by age among
      the unprotected, and the cache ends within its target unless only protected rows are left. */
  lemma TrimmedMeans(rows: Rows, limit: int, target: int, protected: set<string>, evicted: set<string>)
    requires 0 <= target < limit && Trimmed(rows, limit, target, protected, evicted)
    ensures evicted <= rows.Keys && evicted !! protected
    ensures Total(rows - evicted) <= limit || (rows - evicted).Keys <= protected
    ensures Total(rows) > limit ==> Total(rows - evicted) <= target || (rows - evicted).Keys <= protected
    ensures evicted != {} ==> Total(rows) > limit
    ensures forall a, b :: a in rows && b in evicted && a !in protected && a != b && Older(rows, a, b) ==> a in evicted
    ensures forall a, b :: a in rows && b in evicted && a !in protected && rows[a].updated < rows[b].updated ==> a in evicted
  {
    if limit > 0 && Total(rows) > limit {
      var c: seq<string>, k: nat :| TrimmedAt(rows, target, protected, c, k, evicted);
      if k == |c| {
        assert c[..k] == c;
      }
      forall a, b | a in rows && b in evicted && a !in protected && a != b && Older(rows, a, b) ensures a in evicted {
        OlderIsEarlier(rows, c, k, a, b);
      }
    } else {
      assert rows - evicted == rows;
    }
  }

  lemma OlderIsEarlier(rows: Rows, c: seq<string>, k: nat, a: string, b: string)
    requires IsListing(rows, c) && k <= |c| && b in c[..k] && a in rows && a != b && Older(rows, a, b)
    ensures a in c[..k]
  {
    assert a in c && b in c[..k] && b in c;
    var i :| 0 <= i < |c| && c[i] == a;
    var j :| 0 <= j < k && c[..k][j] == b;
    OlderTotal(rows, a, b);
    assert i < j;
    assert c[..k][i] == a;
  }

  /** The next candidate is new, and evictable unless it is kept. */
  lemma EvictableNext(rows: Rows, c: seq<string>, k: nat, kept: set<string>)
    requires IsListing(rows, c) && k < |c|
    ensures c[k] in rows && c[k] !in Evictable(c, k, kept)
    ensures Evictable(c, k + 1, kept) == Evictable(c, k, kept) + if c[k] in kept then {} else {c[k]}
  {
    assert c[k] in c;
    assert c[..k + 1] == c[..k] + [c[k]];
    if c[k] in c[..k] {
      var i :| 0 <= i < k && c[..k][i] == c[k];
      NotOlderThanItself(rows, c[k]);
      assert false;
    }
  }

  /** After evicting from any shorter prefix the total was still above the target. */
  ghost predicate StillOver(rows: Rows, target: int, kept: set<string>, c: seq<string>, k: nat)
    requires k <= |c|
  {
    k == 0 || (StillOver(rows, target, kept, c, k - 1) && Total(rows - Evictable(c, k - 1, kept)) > target)
  }

  lemma StillOverNext(rows: Rows, target: int, kept: set<string>, c: seq<string>, k: nat)
    requires k < |c| && StillOver(rows, target, kept, c, k) && Total(rows - Evictable(c, k, kept)) > target
    ensures StillOver(rows, target, kept, c, k + 1)
  {
  }

  lemma NothingVisited(rows: Rows, target: int, kept: set<string>, c: seq<string>)
    ensures StillOver(rows, target, kept, c, 0) && Evictable(c, 0, kept) == {}
  {
  }

  lemma {:induction false} StillOverMeans(rows: Rows, target: int, kept: set<string>, c: seq<string>, k: nat)
    requires k <= |c| && StillOver(rows, target, kept, c, k)
    ensures forall j :: 0 <= j < k ==> Total(rows - Evictable(c, j, kept)) > target
  {
    if k > 0 {
      StillOverMeans(rows, target, kept, c, k - 1);
    }
  }

  lemma NothingAdded(s: set<string>)
    ensures {} + s == s
  {
  }

  lemma MinusNothing<V>(m: map<string, V>)
    ensures m - {} == m
  {
  }

  lemma MinusAgain<V>(m: map<string, V>, gone: set<string>, n: string)
    ensures m - gone - {n} == m - (gone + {n})
  {
  }

  lemma EvictionMirrors(t: MediaType, files: Entries, rows: Rows, evicted: set<string>)
    requires Mirrors(t, files, rows)
    ensures Mirrors(t, files - evicted, rows - evicted)
  {
  }

  /** The row a save leaves: a hit refreshes size and recency and keeps a recorded creation time, a new
      file starts both times now. */
  ghost function SavedRow(files: Entries, rows: Rows, name: string, size: nat, now: int): Row {
    if name !in files then Row(size, now, now)
    else Row(files[name].size, if name in rows then rows[name].created else files[name].mtime, now)
  }

  /** A protected name is not evicted. */
  lemma TrimmedKeeps(rows: Rows, limit: int, target: int, kept: set<string>, evicted: set<string>, name: string)
    requires Trimmed(rows, limit, target, kept, evicted) && name in kept
    ensures name !in evicted
  {
    if limit > 0 && Total(rows) > limit {
      var c: seq<string>, k: nat :| TrimmedAt(rows, target, kept, c, k, evicted);
    }
  }

  // ---- Reconciling --------------------------------------------------------

  datatype Report = Report(tempFiles: nat, orphanFiles: nat, orphanIndexRows: nat, removedBytes: nat,
                           removedNames: seq<string>)

  const NO_REPORT := Report(0, 0, 0, 0, [])

  function AppendLimited(names: seq<string>, name: string): seq<string> {
    if |names| >= 20 then names else names + [name]
  }

  /** Notes the removal of a leftover or foreign file. */
  function Removed(r: Report, name: string, size: nat): Report {
    var r1 := r.(removedNames := AppendLimited(r.removedNames, name), removedBytes := r.removedBytes + size);
    if IsTemp(name) then r1.(tempFiles := r.tempFiles + 1) else r1.(orphanFiles := r.orphanFiles + 1)
  }

  function OrphanRow(r: Report, name: string): Report {
    r.(orphanIndexRows := r.orphanIndexRows + 1, removedNames := AppendLimited(r.removedNames, name))
  }

  /** What a sweep keeps on disk: folders and allowed media files. */
  ghost function Swept(t: MediaType, files: Entries): Entries {
    map n | n in files && (files[n].isDir || Allowed(t, n)) :: files[n]
  }

  /** The index a sweep builds: one row per media file, stamped with the file's own time. */
  ghost function Rebuilt(t: MediaType, files: Entries): Rows {
    map n | n in files && IsMedia(t, files, n) :: Row(files[n].size, files[n].mtime, files[n].mtime)
  }

  lemma RebuiltMirrors(t: MediaType, files: Entries)
    ensures Mirrors(t, Swept(t, files), Rebuilt(t, files))
  {
  }

  lemma SweepDone(t: MediaType, files: Entries, gone: set<string>, rows: Rows)
    requires gone <= files.Keys && forall n :: n in gone <==> n in files && !files[n].isDir && !Allowed(t, n)
    requires forall n :: n in rows <==> IsMedia(t, files, n)
    requires forall n :: n in rows ==> n in files && rows[n] == Row(files[n].size, files[n].mtime, files[n].mtime)
    ensures files - gone == Swept(t, files) && rows == Rebuilt(t, files)
    ensures files.Keys - (files - gone).Keys == gone
  {
  }

  /** The directory and the index when only `todo` of the original entries are left to visit. */
  ghost predicate Visited(t: MediaType, files0: Entries, todo: set<string>, gone: set<string>, files: Entries, rows: Rows) {
    && todo <= files0.Keys && files == files0 - gone
    && (forall n :: n in gone <==> n in files0 && n !in todo && !files0[n].isDir && !Allowed(t, n))
    && (forall n :: n in rows <==> n !in todo && IsMedia(t, files0, n))
    && (forall n :: n in rows ==> rows[n] == Row(files0[n].size, files0[n].mtime, files0[n].mtime))
  }

  /** Visiting one more entry: a folder stays, a media file gains its row, any other file goes. */
  lemma VisitNext(t: MediaType, files0: Entries, todo: set<string>, gone: set<string>, files: Entries, rows: Rows, n: string)
    requires Visited(t, files0, todo, gone, files, rows) && n in todo
    ensures n in files && n in files0 && files[n] == files0[n] && n !in gone
    ensures files[n].isDir ==> Visited(t, files0, todo - {n}, gone, files, rows)
    ensures !files[n].isDir && !Allowed(t, n) ==> Visited(t, files0, todo - {n}, gone + {n}, files - {n}, rows)
    ensures !files[n].isDir && Allowed(t, n) ==>
      Visited(t, files0, todo - {n}, gone, files, rows[n := Row(files[n].size, files[n].mtime, files[n].mtime)])
  {
    hide Allowed;
    assert files0 - gone - {n} == files0 - (gone + {n});
  }

  ghost function Temps(names: set<string>): set<string> {
    set n | n in names && IsTemp(n)
  }

  /** The sizes of some files, as rows. */
  ghost function SizesOf(files: Entries, names: set<string>): Rows {
    map n | n in names && n in files :: Row(files[n].size, files[n].mtime, files[n].mtime)
  }

  /** The report counts exactly the files gone and their bytes, leftovers apart, and the rows without a
      file; it lists at most twenty names, all of them of such files and rows. */
  ghost predicate Tallied(files: Entries, r: Report, gone: set<string>, orphans: set<string>) {
    && r.tempFiles + r.orphanFiles == |gone| && r.tempFiles == |Temps(gone)| && r.orphanIndexRows == |orphans|
    && r.removedBytes == Total(SizesOf(files, gone))
    && |r.removedNames| == Min(20, |gone| + |orphans|)
    && forall n :: n in r.removedNames ==> n in gone + orphans
  }

  lemma TalliedNone(files: Entries)
    ensures Tallied(files, NO_REPORT, {}, {})
  {
    assert Temps({}) == {} && SizesOf(files, {}) == map[];
  }

  lemma TalliedFile(files: Entries, r: Report, gone: set<string>, n: string)
    requires Tallied(files, r, gone, {}) && n in files && n !in gone
    ensures Tallied(files, Removed(r, n, files[n].size), gone + {n}, {})
  {
    hide Total;
    TempsNext(gone, n);
    TotalWithout(SizesOf(files, gone + {n}), n);
    assert SizesOf(files, gone + {n}) - {n} == SizesOf(files, gone);
  }

  lemma TalliedRow(files: Entries, r: Report, gone: set<string>, orphans: set<string>, n: string)
    requires Tallied(files, r, gone, orphans) && n !in orphans
    ensures Tallied(files, OrphanRow(r, n), gone, orphans + {n})
  {
  }

  lemma TempsNext(names: set<string>, n: string)
    requires n !in names
    ensures |Temps(names + {n})| == |Temps(names)| + if IsTemp(n) then 1 else 0
  {
    assert Temps(names + {n}) == Temps(names) + if IsTemp(n) then {n} else {};
  }

  /** A leftover of an interrupted write is never taken for a media file. */
  lemma TempNotAllowed(t: MediaType, name: string)
    ensures IsTemp(name) ==> !Allowed(t, name)
  {
    if IsTemp(name) {
      var base := name[..|name| - 5];
      assert name == base + ".part";
      ExtOfThree(base, 'p', 'a', 'r');
      var shorter := base + ['.', 'p', 'a', 'r'];
      assert name[..|name| - 1] == shorter;
      assert Ext(name) == ['.', 'p', 'a', 'r', 't'];
      LowerKeeps(".part");
    }
  }

  class MediaCacheStore {
    const mediaType: MediaType
    var files: Entries
    var rows: Rows
    var evictCount: nat

    constructor (t: MediaType)
      ensures mediaType == t && files == map[] && rows == map[] && evictCount == 0
    {
      mediaType, files, rows, evictCount := t, map[], map[], 0;
    }

    ghost predicate InStep()
      reads this
    {
      Mirrors(mediaType, files, rows)
    }

    method UsageBytes() returns (total: nat)
      ensures total == Total(rows)
    {
      total := 0;
      var rest := rows;
      while rest != map[]
        invariant total + Total(rest) == Total(rows)
        decreases |rest|
      {
        var n :| n in rest;
        TotalWithout(rest, n);
        total := total + rest[n].size;
        rest := rest - {n};
      }
    }

    /** The rows in eviction order. */
    method TrimCandidates() returns (c: seq<string>)
      ensures IsListing(rows, c)
    {
      c := [];
      var todo := rows.Keys;
      while todo != {}
        invariant todo <= rows.Keys
        invariant forall n :: n in c <==> n in rows && n !in todo
        invariant forall i, j :: 0 <= i < j < |c| ==> Older(rows, c[i], c[j])
        invariant forall i, m :: 0 <= i < |c| && m in todo ==> Older(rows, c[i], m)
        decreases todo
      {
        ghost var oldest := OldestExists(rows, todo);
        var n :| n in todo && forall m :: m in todo && m != n ==> Older(rows, n, m);
        todo := todo - {n};
        c := c + [n];
      }
    }

    method NewestName() returns (n: string)
      requires rows != map[]
      ensures IsNewest(rows, n)
    {
      var c := TrimCandidates();
      assert c != [] by {
        var m :| m in rows;
        assert m in c;
      }
      n := c[|c| - 1];
      forall m | m in rows && m != n ensures Older(rows, m, n) {
        var i :| 0 <= i < |c| && c[i] == m;
      }
    }

    /** Evicts oldest first until the usage meets the target; a cache within its limit is left alone.
        The newest row is always protected. The running usage is the true remaining total throughout,
        so clamping it at zero never has an effect. */
    method EnforceLimitLocked(limit: int, target: int, protected: set<string>)
      returns (ghost evicted: set<string>)
      requires limit > 0 ==> 0 <= target < limit
      modifies this
      ensures old(InStep()) ==> InStep()
      ensures files == old(files) - evicted && rows == old(rows) - evicted
      ensures evictCount == old(evictCount) + |evicted|
      ensures Trimmed(old(rows), limit, target, protected + NewestOf(old(rows)), evicted)
    {
      evicted := {};
      assert rows - {} == rows && files - {} == files;
      if limit <= 0 {
        return;
      }
      var usage: int := UsageBytes();
      if usage <= limit {
        return;
      }
      var newest := NewestName();
      NewestUnique(rows, newest);
      var kept := protected + {newest};
      var candidates := TrimCandidates();
      evicted := TrimTo(target, kept, candidates, usage);
      if Mirrors(mediaType, old(files), old(rows)) {
        EvictionMirrors(mediaType, old(files), old(rows), evicted);
      }
    }

    /** The eviction loop. */
    method TrimTo(target: int, kept: set<string>, candidates: seq<string>, usageBefore: int)
      returns (ghost evicted: set<string>)
      requires IsListing(rows, candidates) && usageBefore == Total(rows)
      modifies this
      ensures files == old(files) - evicted && rows == old(rows) - evicted
      ensures evictCount == old(evictCount) + |evicted|
      ensures exists k: nat :: TrimmedAt(old(rows), target, kept, candidates, k, evicted)
    {
      hide Total, Evictable, StillOver, IsListing;
      ghost var rows0, files0, count0 := rows, files, evictCount;
      var usage := usageBefore;
      var k := 0;
      evicted := {};
      assert rows - {} == rows && files - {} == files;
      NothingVisited(rows0, target, kept, candidates);
      while k < |candidates|
        invariant k <= |candidates| && evicted == Evictable(candidates, k, kept)
        invariant Without(files0, rows0, count0, evicted) && usage == Total(rows)
        invariant StillOver(rows0, target, kept, candidates, k)
      {
        if usage <= target {
          break;
        }
        EvictableNext(rows0, candidates, k, kept);
        StillOverNext(rows0, target, kept, candidates, k);
        usage := VisitCandidate(kept, candidates[k], usage, files0, rows0, count0, evicted);
        k := k + 1;
        evicted := Evictable(candidates, k, kept);
      }
      StillOverMeans(rows0, target, kept, candidates, k);
      assert TrimmedAt(rows0, target, kept, candidates, k, evicted);
    }

    /** Everything but `gone` is still there, and the evictions are counted. */
    ghost predicate Without(files0: Entries, rows0: Rows, count0: nat, gone: set<string>)
      reads this
    {
      files == files0 - gone && rows == rows0 - gone && evictCount == count0 + |gone|
    }

    /** Skips a kept name, evicts any other. */
    method VisitCandidate(kept: set<string>, name: string, usageBefore: int, ghost files0: Entries, ghost rows0: Rows,
                          ghost count0: nat, ghost gone: set<string>)
      returns (usage: int)
      requires Without(files0, rows0, count0, gone) && usageBefore == Total(rows) && name in rows0 && name !in gone
      modifies this
      ensures Without(files0, rows0, count0, gone + if name in kept then {} else {name}) && usage == Total(rows)
    {
      usage := usageBefore;
      if name in kept {
        assert gone + {} == gone;
        return;
      }
      TotalWithout(rows, name);
      MinusAgain(rows0, gone, name);
      MinusAgain(files0, gone, name);
      usage := usage - rows[name].size;
      Evict(name);
      if usage < 0 {
        usage := 0;
      }
    }

    /** Removes one file together with its row. */
    method Evict(name: string)
      modifies this
      ensures files == old(files) - {name} && rows == old(rows) - {name} && evictCount == old(evictCount) + 1
    {
      files := files - {name};
      rows := rows - {name};
      evictCount := evictCount + 1;
    }

    // ---- Operations -------------------------------------------------------

    method WriteIfMissing(name: string, size: nat, now: int, writable: bool) returns (ok: bool)
      modifies this`files
      ensures ok <==> name in old(files) || writable
      ensures files == if name in old(files) || !writable then old(files) else old(files)[name := Entry(false, size, now)]
    {
      if name in files {
        return true;
      }
      if !writable {
        return false;
      }
      files := files[name := Entry(false, size, now)];
      return true;
    }

    /** A hit refreshes the row's size and recency; a creation time once recorded is kept. */
    method UpsertExistingRow(name: string, now: int)
      requires name in files
      modifies this`rows
      ensures rows == old(rows)[name := Row(files[name].size,
        if name in old(rows) then old(rows)[name].created else files[name].mtime, now)]
    {
      var created := if name in rows then rows[name].created else files[name].mtime;
      rows := rows[name := Row(files[name].size, created, now)];
    }

    method UpsertNewRow(name: string, now: int)
      requires name in files
      modifies this`rows
      ensures rows == old(rows)[name := Row(files[name].size, now, now)]
    {
      rows := rows[name := Row(files[name].size, now, now)];
    }

    /** Saves a file and, under a limit, its row, then trims. An existing file is never overwritten, the
        saved file always survives the trim, and the index stays in step unless a folder has the name. */
    method Save(name: string, size: nat, now: int, limit: int, target: int, writable: bool)
      returns (ok: bool, ghost evicted: set<string>)
      requires Allowed(mediaType, name) && (limit > 0 ==> 0 <= target < limit)
      modifies this
      ensures ok <==> name in old(files) || writable
      ensures !ok ==> files == old(files) && rows == old(rows)
      ensures limit <= 0 ==> rows == old(rows) && evicted == {}
      ensures limit > 0 && old(InStep()) && (name in old(files) ==> !old(files)[name].isDir) ==> InStep()
      ensures ok ==>
        var files' := if name in old(files) then old(files) else old(files)[name := Entry(false, size, now)];
        && name !in evicted && files == files' - evicted
        && (limit > 0 ==>
              var rows' := old(rows)[name := SavedRow(old(files), old(rows), name, size, now)];
              && rows == rows' - evicted && name in rows && rows[name].updated == now
              && (name !in old(files) ==> rows[name] == Row(size, now, now))
              && (name in old(files) ==>
                    && rows[name].size == old(files)[name].size
                    && rows[name].created == if name in old(rows) then old(rows)[name].created else old(files)[name].mtime)
              && Trimmed(rows', limit, target, {name} + NewestOf(rows'), evicted))
    {
      hide Allowed, NewestOf, Total, Trimmed;
      evicted := {};
      if limit <= 0 {
        ok := WriteIfMissing(name, size, now, writable);
        assert files - {} == files;
        return;
      }
      if name in files {
        UpsertExistingRow(name, now);
      } else {
        ok := WriteIfMissing(name, size, now, writable);
        if !ok {
          return;
        }
        UpsertNewRow(name, now);
      }
      ok := true;
      ghost var rows' := rows;
      evicted := EnforceLimitLocked(limit, target, {name});
      TrimmedKeeps(rows', limit, target, {name} + NewestOf(rows'), evicted, name);
    }

    predicate ValidName(name: string) {
      name != "" && '/' !in name && Allowed(mediaType, name)
    }

    /** Removes a regular file of that name, white space around it aside, and its row; anything else keeps
        its entry. */
    method Delete(given: string) returns (accepted: bool, existed: bool)
      modifies this
      ensures var name := Trim(given);
        && (accepted <==> |name| > 0 && (forall c :: c in name ==> c != '/') && Allowed(mediaType, name))
        && (existed <==> accepted && IsMedia(mediaType, old(files), name))
        && files == (if existed then old(files) - {name} else old(files))
        && rows == (if accepted then old(rows) - {name} else old(rows))
      ensures old(InStep()) ==> InStep()
    {
      var name := Trim(given);
      if !ValidName(name) {
        return false, false;
      }
      accepted := true;
      existed := name in files && !files[name].isDir;
      if existed {
        files := files - {name};
      }
      rows := rows - {name};
    }

    /** Removes every media file and every row; folders and other files stay. */
    method Clear() returns (removed: nat)
      modifies this
      ensures InStep() && rows == map[]
      ensures removed == |set n | n in old(files) && IsMedia(mediaType, old(files), n)|
      ensures forall n :: n in files <==> n in old(files) && !IsMedia(mediaType, old(files), n)
      ensures forall n :: n in files ==> files[n] == old(files)[n]
    {
      ghost var files0 := files;
      ghost var gone: set<string> := {};
      removed := 0;
      var todo := files.Keys;
      while todo != {}
        invariant todo <= files0.Keys && gone <= files0.Keys && removed == |gone|
        invariant forall n :: n in gone <==> n in files0 && n !in todo && IsMedia(mediaType, files0, n)
        invariant files == files0 - gone
        decreases todo
      {
        var n :| n in todo;
        todo := todo - {n};
        if files[n].isDir || !Allowed(mediaType, n) {
          continue;
        }
        MinusAgain(files0, gone, n);
        files := files - {n};
        gone := gone + {n};
        removed := removed + 1;
      }
      assert gone == set n | n in files0 && IsMedia(mediaType, files0, n);
      rows := map[];
    }

    /** Does nothing without a limit. */
    method Reconcile(limit: int, target: int) returns (report: Report, ghost evicted: set<string>)
      requires limit > 0 ==> 0 <= target < limit
      modifies this
      ensures limit <= 0 ==> files == old(files) && rows == old(rows)
      ensures limit > 0 ==> InStep() && Reconciled(old(files), old(rows).Keys, limit, target, report, evicted)
      ensures limit > 0 ==> forall n :: n in old(files) && n !in evicted ==>
        && (n in files <==> old(files)[n].isDir || Allowed(mediaType, n))
        && (n in rows <==> !old(files)[n].isDir && Allowed(mediaType, n))
        && (n in files ==> files[n] == old(files)[n])
        && (n in rows ==> rows[n] == Row(old(files)[n].size, old(files)[n].mtime, old(files)[n].mtime))
    {
      report, evicted := NO_REPORT, {};
      if limit > 0 {
        report, evicted := ReconcileIndexed(limit, target);
      }
    }

    /** The outcome of a reconcile: the swept directory and the rebuilt index, trimmed, and a true report. */
    ghost predicate Reconciled(files0: Entries, indexed: set<string>, limit: int, target: int, report: Report,
                               evicted: set<string>)
      reads this
    {
      && files == Swept(mediaType, files0) - evicted
      && rows == Rebuilt(mediaType, files0) - evicted
      && Trimmed(Rebuilt(mediaType, files0), limit, target, NewestOf(Rebuilt(mediaType, files0)), evicted)
      && Tallied(files0, report, files0.Keys - Swept(mediaType, files0).Keys, indexed - Rebuilt(mediaType, files0).Keys)
    }

    /** Rebuilds the index from the directory, whatever both held before, then trims. Leftover temporary
        files and files of other types are deleted; folders are left alone. */
    method ReconcileIndexed(limit: int, target: int) returns (report: Report, ghost evicted: set<string>)
      requires limit > 0 && 0 <= target < limit
      modifies this
      ensures InStep() && Reconciled(old(files), old(rows).Keys, limit, target, report, evicted)
    {
      var indexed := rows.Keys;
      report := Sweep();
      report := CountOrphanRows(report, indexed, old(files), old(files).Keys - files.Keys);
      RebuiltMirrors(mediaType, old(files));
      ghost var rebuilt := rows;
      evicted := EnforceLimitLocked(limit, target, {});
      NothingAdded(NewestOf(rebuilt));
    }

    method Sweep() returns (report: Report)
      modifies this
      ensures files == Swept(mediaType, old(files)) && rows == Rebuilt(mediaType, old(files))
      ensures evictCount == old(evictCount) && Tallied(old(files), report, old(files).Keys - files.Keys, {})
    {
      ghost var files0 := files;
      hide Tallied;
      ghost var gone: set<string> := {};
      report := NO_REPORT;
      rows := map[];
      var todo := files.Keys;
      MinusNothing(files);
      TalliedNone(files0);
      while todo != {}
        invariant SweptBut(files0, todo, gone) && evictCount == old(evictCount)
        invariant Tallied(files0, report, gone, {})
        decreases todo
      {
        var n :| n in todo;
        report, gone := VisitEntry(report, n, files0, todo, gone);
        todo := todo - {n};
      }
      SweepDone(mediaType, files0, gone, rows);
    }

    ghost predicate SweptBut(files0: Entries, todo: set<string>, gone: set<string>)
      reads this
    {
      Visited(mediaType, files0, todo, gone, files, rows)
    }

    method VisitEntry(before: Report, n: string, ghost files0: Entries, ghost todo: set<string>, ghost gone: set<string>)
      returns (report: Report, ghost gone': set<string>)
      requires n in todo && SweptBut(files0, todo, gone) && Tallied(files0, before, gone, {})
      modifies this
      ensures SweptBut(files0, todo - {n}, gone') && evictCount == old(evictCount)
      ensures Tallied(files0, report, gone', {})
    {
      hide Tallied, Visited, Removed;
      VisitNext(mediaType, files0, todo, gone, files, rows, n);
      report, gone' := before, gone;
      var entry := files[n];
      if entry.isDir {
        return;
      }
      TempNotAllowed(mediaType, n);
      if IsTemp(n) || !Allowed(mediaType, n) {
        TalliedFile(files0, before, gone, n);
        report := RemoveFile(before, n);
        gone' := gone + {n};
        return;
      }
      rows := rows[n := Row(entry.size, entry.mtime, entry.mtime)];
    }

    method RemoveFile(before: Report, n: string) returns (report: Report)
      requires n in files
      modifies this`files
      ensures files == old(files) - {n} && report == Removed(before, n, old(files)[n].size)
    {
      report := Removed(before, n, files[n].size);
      files := files - {n};
    }

    method CountOrphanRows(before: Report, indexed: set<string>, ghost files0: Entries, ghost gone: set<string>)
      returns (report: Report)
      requires Tallied(files0, before, gone, {})
      ensures Tallied(files0, report, gone, indexed - rows.Keys)
    {
      report := before;
      var todo := indexed;
      ghost var orphans: set<string> := {};
      while todo != {}
        invariant todo <= indexed && Tallied(files0, report, gone, orphans)
        invariant forall n :: n in orphans <==> n in indexed && n !in todo && n !in rows
        decreases todo
      {
        var n :| n in todo;
        todo := todo - {n};
        if n !in rows {
          TalliedRow(files0, report, gone, orphans, n);
          orphans := orphans + {n};
          report := OrphanRow(report, n);
        }
      }
      assert orphans == indexed - rows.Keys;
    }
  }
}
