/**
 * The incremental manifest reconciler of tools/pcm_update.py: per-file records reused
 * through a size/mtime cache, manual overrides, the module graph, the test metadata, and
 * the check and write modes of `main`.
 *
 * The filesystem is a snapshot map from a root-relative path to the file's size,
 * nanosecond mtime and content. SHA-1, `isoformat` and `json.dumps` are functions the
 * host supplies; each JSON artifact on disk is given as what `json.loads` or
 * `splitlines` would read back from it.
 */
module PcmUpdate {
  import opened Wrappers
  import opened Kotlin
  import opened Order
  import opened PcmPaths

  const CACHE_VERSION: int := 1

  /** `TESTS_PATH` relative to the root. */
  const REL_TESTS: string := ".project_context/tests.jsonl"

  // ----- JSON values -----

  /** A JSON document as Python's `json` module loads it (floats are not modelled). */
  datatype Value =
    | Null
    | Bool(b: bool)
    | Int(i: int)
    | Str(s: string)
    | Array(items: seq<Value>)
    | Object(fields: map<string, Value>)

  /** Python truthiness of a loaded JSON value. */
  predicate Truthy(v: Value) {
    match v
    case Null => false
    case Bool(b) => b
    case Int(i) => i != 0
    case Str(s) => |s| > 0
    case Array(items) => |items| > 0
    case Object(fields) => |fields| > 0
  }

  /** Python's `v == n` for an int `n`, where `True == 1` and `False == 0`. */
  predicate EqualsInt(v: Value, n: int) {
    match v
    case Int(i) => i == n
    case Bool(b) => (if b then 1 else 0) == n
    case _ => false
  }

  /** A JSON object: a record, an override or a cached record. */
  type Record = map<string, Value>

  /** `d.get(key)`, with None for a missing key. */
  function Get(d: Record, key: string): Option<Value> {
    if key in d then Some(d[key]) else None
  }

  // ----- Host -----

  datatype FileStat = FileStat(size: int, mtimeNs: int, content: seq<bv8>)

  /**
   * What the script sees of its machine: the POSIX text of `ROOT`, the files below it
   * by relative path, the SHA-1 hex digest, `isoformat` of a modification time (given
   * the nanosecond stamp) and `json.dumps` with compact separators.
   */
  datatype Host = Host(
    root: string,
    fs: map<string, FileStat>,
    sha1Hex: seq<bv8> -> string,
    isoformat: int -> string,
    dumps: Value -> string)

  /** `compute_hash`. */
  function ComputeHash(h: Host, rel: string): string
    requires rel in h.fs
  {
    "sha1:" + h.sha1Hex(h.fs[rel].content)
  }

  /** The record fields of `build_record` with a given kind. */
  function RecordWithKind(h: Host, rel: string, kind: Kind): Record
    requires rel in h.fs
  {
    map[
      "path" := Str(rel),
      "lang" := Str(DetectLang(rel)),
      "kind" := Str(kind.Tag()),
      "size" := Int(h.fs[rel].size),
      "hash" := Str(ComputeHash(h, rel)),
      "last_modified" := Str(h.isoformat(h.fs[rel].mtimeNs))]
  }

  /**
   * `build_record` as written: `detect_kind` receives the absolute path, so the rules
   * anchored at the start of a relative path never apply.
   */
  function BuildRecordAsWritten(h: Host, rel: string): (r: Record)
    requires rel in h.fs
    ensures "kind" in r
    ensures |h.root| > 0 && h.root[0] == '/' ==>
      r["kind"] != Str(Docs.Tag()) && r["kind"] != Str(Script.Tag())
  {
    var kind := DetectKind(h.root + "/" + rel);
    var r := RecordWithKind(h, rel, kind);
    if |h.root| > 0 && h.root[0] == '/' then
      AbsolutePathNeverDocsOrScript(h.root, rel);
      TagIsNotDocsOrScript(kind);
      r
    else r
  }

  /** `build_record` with the kind taken from the root-relative path. */
  function BuildRecord(h: Host, rel: string): (r: Record)
    requires rel in h.fs
    ensures Get(r, "path") == Some(Str(rel))
  {
    RecordWithKind(h, rel, DetectKind(rel))
  }

  /** A built record holds exactly the six fields of `build_record`, the relative path and the kind of that path. */
  lemma BuildRecordShape(h: Host, rel: string)
    requires rel in h.fs
    ensures var r := BuildRecord(h, rel);
      r.Keys == {"path", "lang", "kind", "size", "hash", "last_modified"}
      && r["path"] == Str(rel) && r["kind"] == Str(DetectKind(rel).Tag())
  {
  }

  // ----- Cache -----

  datatype CacheEntry = CacheEntry(size: int, mtimeNs: int, record: Record)

  /** The cache file as `json.loads` reads it: absent, not JSON, or a document. */
  datatype CacheFile =
    | CacheMissing
    | CacheInvalid
    | CacheDoc(version: Option<Value>, entries: map<string, CacheEntry>)

  /** `load_cache`: the stored entries, unless the file is missing, invalid or of another version. */
  function LoadCache(f: CacheFile): (cache: map<string, CacheEntry>)
    ensures f.CacheMissing? || f.CacheInvalid? ==> cache == map[]
    ensures f.CacheDoc? && !(f.version.Some? && EqualsInt(f.version.value, CACHE_VERSION)) ==> cache == map[]
    ensures f.CacheDoc? && f.version.Some? && EqualsInt(f.version.value, CACHE_VERSION) ==> cache == f.entries
  {
    match f
    case CacheDoc(version, entries) =>
      if version.Some? && EqualsInt(version.value, CACHE_VERSION) then entries else map[]
    case _ => map[]
  }

  /** The cached entry may be reused: same size and same nanosecond mtime. */
  predicate CacheHit(cache: map<string, CacheEntry>, rel: string, st: FileStat) {
    rel in cache && cache[rel].size == st.size && cache[rel].mtimeNs == st.mtimeNs
  }

  /** The base record of `rel`: the cached one on a hit, a freshly built one otherwise. */
  function BaseRecord(h: Host, cache: map<string, CacheEntry>, rel: string): Record
    requires rel in h.fs
  {
    if CacheHit(cache, rel, h.fs[rel]) then cache[rel].record else BuildRecord(h, rel)
  }

  /** `{**base, **override}` when the override is non-empty, else the base record. */
  function Overlay(base: Record, overrides: map<string, Record>, rel: string): (r: Record)
    ensures rel in overrides ==> forall k :: k in overrides[rel] ==> k in r && r[k] == overrides[rel][k]
    ensures forall k :: k in base && !(rel in overrides && k in overrides[rel]) ==> k in r && r[k] == base[k]
    ensures r.Keys == base.Keys + (if rel in overrides then overrides[rel].Keys else {})
  {
    if rel in overrides && |overrides[rel]| > 0 then base + overrides[rel] else base
  }

  predicate InHost(h: Host, files: seq<string>) {
    forall i :: 0 <= i < |files| ==> files[i] in h.fs
  }

  /** The records `collect_records` returns: one per file, in the order of `files`. */
  function CollectedRecords(h: Host, cache: map<string, CacheEntry>, overrides: map<string, Record>, files: seq<string>): (r: seq<Record>)
    requires InHost(h, files)
    ensures |r| == |files|
  {
    if |files| == 0 then []
    else
      var last := files[|files| - 1];
      CollectedRecords(h, cache, overrides, files[..|files| - 1]) + [Overlay(BaseRecord(h, cache, last), overrides, last)]
  }

  /** The cache `collect_records` returns: the current stat and base record of every file. */
  function CollectedCache(h: Host, cache: map<string, CacheEntry>, files: seq<string>): map<string, CacheEntry>
    requires InHost(h, files)
  {
    if |files| == 0 then map[]
    else
      var last := files[|files| - 1];
      CollectedCache(h, cache, files[..|files| - 1])[last := CacheEntry(h.fs[last].size, h.fs[last].mtimeNs, BaseRecord(h, cache, last))]
  }

  /** The files whose record had to be built (and hashed), in order. */
  function Misses(h: Host, cache: map<string, CacheEntry>, files: seq<string>): seq<string>
    requires InHost(h, files)
  {
    if |files| == 0 then []
    else
      var last := files[|files| - 1];
      Misses(h, cache, files[..|files| - 1]) + (if CacheHit(cache, last, h.fs[last]) then [] else [last])
  }

  /**
   * `collect_records`. `built` lists, in order, the files whose record was rebuilt: the
   * only calls of `build_record`, and so of the hasher.
   */
  method CollectRecords(h: Host, files: seq<string>, cache: map<string, CacheEntry>, overrides: map<string, Record>)
    returns (records: seq<Record>, newCache: map<string, CacheEntry>, built: seq<string>)
    requires InHost(h, files)
    ensures records == CollectedRecords(h, cache, overrides, files)
    ensures newCache == CollectedCache(h, cache, files)
    ensures built == Misses(h, cache, files)
  {
    records, newCache, built := [], map[], [];
    CollectedNone(h, cache, overrides, files);
    for i := 0 to |files|
      invariant CollectedUpTo(h, cache, overrides, files, i, records, newCache, built)
    {
      records, newCache, built := CollectFile(h, cache, overrides, files, i, records, newCache, built);
    }
    assert files[..|files|] == files;
  }

  /** The state of `collect_records`' loop after the first `i` files. */
  predicate CollectedUpTo(h: Host, cache: map<string, CacheEntry>, overrides: map<string, Record>, files: seq<string>,
                          i: nat, records: seq<Record>, newCache: map<string, CacheEntry>, built: seq<string>) {
    i <= |files| && InHost(h, files[..i])
    && records == CollectedRecords(h, cache, overrides, files[..i])
    && newCache == CollectedCache(h, cache, files[..i])
    && built == Misses(h, cache, files[..i])
  }

  lemma CollectedNone(h: Host, cache: map<string, CacheEntry>, overrides: map<string, Record>, files: seq<string>)
    ensures CollectedUpTo(h, cache, overrides, files, 0, [], map[], [])
  {
    assert files[..0] == [];
  }

  /** One iteration of `collect_records`' loop. */
  method CollectFile(h: Host, cache: map<string, CacheEntry>, overrides: map<string, Record>, files: seq<string>,
                     i: nat, records: seq<Record>, newCache: map<string, CacheEntry>, built: seq<string>)
    returns (records': seq<Record>, newCache': map<string, CacheEntry>, built': seq<string>)
    requires InHost(h, files) && i < |files|
    requires CollectedUpTo(h, cache, overrides, files, i, records, newCache, built)
    ensures CollectedUpTo(h, cache, overrides, files, i + 1, records', newCache', built')
  {
    var rel := files[i];
    var st := h.fs[rel];
    var baseRecord, hit := LookupOrBuild(h, cache, rel);
    built' := built;
    if !hit {
      built' := built + [rel];
    }
    var record := Overlay(baseRecord, overrides, rel);
    newCache' := newCache[rel := CacheEntry(st.size, st.mtimeNs, baseRecord)];
    records' := records + [record];
    CollectStep(h, cache, overrides, files, i);
  }

  /** One file of `collect_records`: the cached record on a hit, else `build_record`. */
  method LookupOrBuild(h: Host, cache: map<string, CacheEntry>, rel: string) returns (baseRecord: Record, hit: bool)
    requires rel in h.fs
    ensures hit == CacheHit(cache, rel, h.fs[rel])
    ensures baseRecord == BaseRecord(h, cache, rel)
    ensures hit ==> baseRecord == cache[rel].record
    ensures !hit ==> baseRecord == BuildRecord(h, rel)
  {
    var st := h.fs[rel];
    if rel in cache && cache[rel].size == st.size && cache[rel].mtimeNs == st.mtimeNs {
      baseRecord, hit := cache[rel].record, true;
    } else {
      baseRecord, hit := BuildRecord(h, rel), false;
    }
  }

  lemma CollectStep(h: Host, cache: map<string, CacheEntry>, overrides: map<string, Record>, files: seq<string>, i: nat)
    requires InHost(h, files) && i < |files|
    ensures InHost(h, files[..i]) && InHost(h, files[..i + 1])
    ensures CollectedRecords(h, cache, overrides, files[..i + 1]) ==
      CollectedRecords(h, cache, overrides, files[..i]) + [Overlay(BaseRecord(h, cache, files[i]), overrides, files[i])]
    ensures CollectedCache(h, cache, files[..i + 1]) ==
      CollectedCache(h, cache, files[..i])[files[i] := CacheEntry(h.fs[files[i]].size, h.fs[files[i]].mtimeNs, BaseRecord(h, cache, files[i]))]
    ensures Misses(h, cache, files[..i + 1]) ==
      Misses(h, cache, files[..i]) + (if CacheHit(cache, files[i], h.fs[files[i]]) then [] else [files[i]])
  {
    assert files[..i + 1] == files[..i] + [files[i]];
    CollectedRecordsSnoc(h, cache, overrides, files[..i], files[i]);
    CollectedCacheSnoc(h, cache, files[..i], files[i]);
    MissesSnoc(h, cache, files[..i], files[i]);
  }

  lemma CollectedRecordsSnoc(h: Host, cache: map<string, CacheEntry>, overrides: map<string, Record>, files: seq<string>, f: string)
    requires InHost(h, files) && f in h.fs
    ensures InHost(h, files + [f])
    ensures CollectedRecords(h, cache, overrides, files + [f]) ==
      CollectedRecords(h, cache, overrides, files) + [Overlay(BaseRecord(h, cache, f), overrides, f)]
  {
    assert (files + [f])[..|files|] == files;
  }

  lemma CollectedCacheSnoc(h: Host, cache: map<string, CacheEntry>, files: seq<string>, f: string)
    requires InHost(h, files) && f in h.fs && InHost(h, files + [f])
    ensures CollectedCache(h, cache, files + [f]) ==
      CollectedCache(h, cache, files)[f := CacheEntry(h.fs[f].size, h.fs[f].mtimeNs, BaseRecord(h, cache, f))]
  {
    assert (files + [f])[..|files|] == files;
  }

  /** The i-th collected record is the base record of the i-th file with its override applied. */
  lemma {:induction false} CollectedRecordAt(h: Host, cache: map<string, CacheEntry>, overrides: map<string, Record>, files: seq<string>, i: nat)
    requires InHost(h, files) && i < |files|
    ensures CollectedRecords(h, cache, overrides, files)[i] == Overlay(BaseRecord(h, cache, files[i]), overrides, files[i])
    decreases |files|
  {
    if i < |files| - 1 {
      CollectedRecordAt(h, cache, overrides, files[..|files| - 1], i);
    }
  }

  /** A file's entry in the collected cache: present exactly for the listed files, with its stat and base record. */
  lemma {:induction false} CollectedCacheAt(h: Host, cache: map<string, CacheEntry>, files: seq<string>, g: string)
    requires InHost(h, files)
    ensures g in CollectedCache(h, cache, files) <==> g in files
    ensures g in files ==> (g in h.fs &&
      CollectedCache(h, cache, files)[g] == CacheEntry(h.fs[g].size, h.fs[g].mtimeNs, BaseRecord(h, cache, g)))
    decreases |files|
  {
    if |files| > 0 {
      var prefix := files[..|files| - 1];
      assert files == prefix + [files[|files| - 1]];
      CollectedCacheAt(h, cache, prefix, g);
    }
  }

  lemma MissesSnoc(h: Host, cache: map<string, CacheEntry>, files: seq<string>, f: string)
    requires InHost(h, files) && f in h.fs && InHost(h, files + [f])
    ensures Misses(h, cache, files + [f]) ==
      Misses(h, cache, files) + (if CacheHit(cache, f, h.fs[f]) then [] else [f])
  {
    assert (files + [f])[..|files|] == files;
  }

  /** A file's record is rebuilt, and hashed, exactly when its cache entry is not a hit. */
  lemma {:induction false} RebuiltIffMiss(h: Host, cache: map<string, CacheEntry>, files: seq<string>, rel: string)
    requires InHost(h, files) && rel in files
    ensures rel in Misses(h, cache, files) <==> !CacheHit(cache, rel, h.fs[rel])
    decreases |files|
  {
    var prefix := files[..|files| - 1];
    var last := files[|files| - 1];
    assert files == prefix + [last];
    if rel in prefix {
      RebuiltIffMiss(h, cache, prefix, rel);
    } else {
      MissesWithin(h, cache, prefix);
    }
  }

  lemma {:induction false} MissesWithin(h: Host, cache: map<string, CacheEntry>, files: seq<string>)
    requires InHost(h, files)
    ensures forall f :: f in Misses(h, cache, files) ==> f in files
    decreases |files|
  {
    if |files| > 0 {
      MissesWithin(h, cache, files[..|files| - 1]);
    }
  }

  /** The new cache keeps exactly the discovered files, each with base record and current stat. */
  lemma CollectedCacheExact(h: Host, cache: map<string, CacheEntry>, overrides: map<string, Record>, files: seq<string>, rel: string)
    requires InHost(h, files)
    ensures rel in CollectedCache(h, cache, files) <==> rel in files
    ensures rel in files ==>
      CacheHit(CollectedCache(h, cache, files), rel, h.fs[rel]) &&
      CollectedCache(h, cache, files)[rel].record == BaseRecord(h, cache, rel)
  {
    CollectedCacheAt(h, cache, files, rel);
  }

  /**
   * A second run over the same snapshot, with the cache the first run wrote, rebuilds
   * nothing and returns the same records, whatever overrides either run applied: the
   * cache holds base records only, so removing an override takes effect.
   */
  lemma {:induction false} SecondRunRebuildsNothing(
    h: Host, cache: map<string, CacheEntry>, overrides: map<string, Record>, files: seq<string>)
    requires InHost(h, files)
    ensures Misses(h, CollectedCache(h, cache, files), files) == []
    ensures CollectedRecords(h, CollectedCache(h, cache, files), overrides, files) == CollectedRecords(h, cache, overrides, files)
  {
    var c := CollectedCache(h, cache, files);
    forall f | f in files ensures CacheHit(c, f, h.fs[f]) {
      CollectedCacheAt(h, cache, files, f);
    }
    NoMisses(h, c, files);
    var again := CollectedRecords(h, c, overrides, files);
    var first := CollectedRecords(h, cache, overrides, files);
    forall i | 0 <= i < |files| ensures again[i] == first[i] {
      CollectedCacheAt(h, cache, files, files[i]);
      CollectedRecordAt(h, c, overrides, files, i);
      CollectedRecordAt(h, cache, overrides, files, i);
    }
    assert again == first;
  }

  lemma {:induction false} NoMisses(h: Host, c: map<string, CacheEntry>, files: seq<string>)
    requires InHost(h, files)
    requires forall f :: f in files ==> CacheHit(c, f, h.fs[f])
    ensures Misses(h, c, files) == []
    decreases |files|
  {
    if |files| > 0 {
      var prefix := files[..|files| - 1];
      assert forall f :: f in prefix ==> f in files;
      assert files[|files| - 1] in files;
      NoMisses(h, c, prefix);
    }
  }

  /** Every cache entry's record carries its own path, as `build_record` writes it. */
  predicate WellFormedCache(cache: map<string, CacheEntry>) {
    forall p :: p in cache ==> Get(cache[p].record, "path") == Some(Str(p))
  }

  /** `load_overrides` pops "path" from every override line. */
  predicate PathFreeOverrides(overrides: map<string, Record>) {
    forall p :: p in overrides ==> "path" !in overrides[p]
  }

  /** The cache a run writes is well formed whenever the one it read was. */
  lemma CollectedCacheWellFormed(h: Host, cache: map<string, CacheEntry>, files: seq<string>)
    requires InHost(h, files) && WellFormedCache(cache)
    ensures WellFormedCache(CollectedCache(h, cache, files))
  {
    forall g | g in CollectedCache(h, cache, files)
      ensures Get(CollectedCache(h, cache, files)[g].record, "path") == Some(Str(g))
    {
      CollectedCacheAt(h, cache, files, g);
    }
  }

  /** The i-th record describes the i-th file, so sorted files give records sorted by path. */
  lemma RecordsFollowFiles(h: Host, cache: map<string, CacheEntry>, overrides: map<string, Record>, files: seq<string>)
    requires InHost(h, files) && WellFormedCache(cache) && PathFreeOverrides(overrides)
    ensures forall i :: 0 <= i < |files| ==>
      Get(CollectedRecords(h, cache, overrides, files)[i], "path") == Some(Str(files[i]))
  {
    forall i | 0 <= i < |files|
      ensures Get(CollectedRecords(h, cache, overrides, files)[i], "path") == Some(Str(files[i]))
    {
      CollectedRecordAt(h, cache, overrides, files, i);
    }
  }

  // ----- Module graph -----

  /** A line of modules.jsonl: a module name and its optional `depends_on` list. */
  datatype ModuleDecl = ModuleDecl(name: string, dependsOn: Option<seq<string>>)

  /** `module.get("depends_on", []) or []`. */
  function Deps(m: ModuleDecl): seq<string> {
    m.dependsOn.OrElse([])
  }

  datatype Graph = Graph(nodes: seq<string>, edges: seq<(string, string)>)

  /** Python's order on `(from, to)` tuples of strings. */
  predicate PairLt(a: (string, string), b: (string, string)) {
    StrLt(a.0, b.0) || (a.0 == b.0 && StrLt(a.1, b.1))
  }

  lemma PairLtStrictTotal()
    ensures StrictTotal(PairLt)
  {
    StrLtStrictTotal();
  }

  function DeclaredNames(modules: seq<ModuleDecl>): set<string> {
    set m | m in modules :: m.name
  }

  function DeclaredEdges(modules: seq<ModuleDecl>): set<(string, string)> {
    set m, t | m in modules && t in Deps(m) :: (m.name, t)
  }

  /** The graph `build_graph` derives: sorted declaring names, sorted distinct edges. */
  ghost function ExpectedGraph(modules: seq<ModuleDecl>): Graph {
    StrLtStrictTotal();
    PairLtStrictTotal();
    Graph(SortedOf(DeclaredNames(modules), StrLt), SortedOf(DeclaredEdges(modules), PairLt))
  }

  /**
   * `build_graph`: nodes are the distinct declaring module names in order, so a name
   * that only appears as a dependency is no node; edges are the distinct pairs in order.
   */
  method BuildGraph(modules: seq<ModuleDecl>) returns (g: Graph)
    ensures Increasing(g.nodes, StrLt) && Elems(g.nodes) == DeclaredNames(modules)
    ensures Increasing(g.edges, PairLt) && Elems(g.edges) == DeclaredEdges(modules)
    ensures g == ExpectedGraph(modules)
    ensures |modules| == 0 ==> g == Graph([], [])
  {
    StrLtStrictTotal();
    PairLtStrictTotal();
    if |modules| == 0 {
      return Graph([], []);
    }
    var nodeIds := SortSet(DeclaredNames(modules), StrLt);
    var edges := CollectEdges(modules);
    var sortedEdges := SortSet(edges, PairLt);
    g := Graph(nodeIds, sortedEdges);
  }

  /** The edge loops of `build_graph`: one edge from each module to each of its dependencies. */
  method CollectEdges(modules: seq<ModuleDecl>) returns (edges: set<(string, string)>)
    ensures edges == DeclaredEdges(modules)
  {
    edges := {};
    var i := 0;
    while i < |modules|
      invariant 0 <= i <= |modules|
      invariant edges == DeclaredEdges(modules[..i])
    {
      edges := AddEdges(edges, modules[i].name, Deps(modules[i]));
      DeclaredEdgesSnoc(modules[..i], modules[i]);
      assert modules[..i + 1] == modules[..i] + [modules[i]];
      i := i + 1;
    }
    assert modules[..i] == modules;
  }

  /** The inner loop: `edges.add((source, target))` for every target. */
  method AddEdges(edges: set<(string, string)>, source: string, targets: seq<string>) returns (r: set<(string, string)>)
    ensures r == edges + set t | t in targets :: (source, t)
  {
    r := edges;
    var j := 0;
    while j < |targets|
      invariant 0 <= j <= |targets|
      invariant r == edges + set t | t in targets[..j] :: (source, t)
    {
      r := r + {(source, targets[j])};
      assert targets[..j + 1] == targets[..j] + [targets[j]];
      j := j + 1;
    }
    assert targets[..j] == targets;
  }

  lemma DeclaredEdgesSnoc(ms: seq<ModuleDecl>, m: ModuleDecl)
    ensures DeclaredEdges(ms + [m]) == DeclaredEdges(ms) + set t | t in Deps(m) :: (m.name, t)
  {
    forall e | e in DeclaredEdges(ms + [m])
      ensures e in DeclaredEdges(ms) || e in set t | t in Deps(m) :: (m.name, t)
    {
      var m', t :| m' in ms + [m] && t in Deps(m') && e == (m'.name, t);
      if m' != m { assert m' in ms; }
    }
  }

  /** The graph depends only on the sets of declared names and edges, not on line order or duplicates. */
  lemma GraphIgnoresOrder(a: seq<ModuleDecl>, b: seq<ModuleDecl>)
    requires forall m :: m in a <==> m in b
    ensures ExpectedGraph(a) == ExpectedGraph(b)
  {
    assert DeclaredNames(a) == DeclaredNames(b);
    assert DeclaredEdges(a) == DeclaredEdges(b);
  }

  /** `{"nodes": [{"id": …}], "edges": [{"from": …, "to": …}]}`. */
  function GraphValue(g: Graph): Value {
    Object(map[
      "nodes" := Array(seq(|g.nodes|, i requires 0 <= i < |g.nodes| => Object(map["id" := Str(g.nodes[i])]))),
      "edges" := Array(seq(|g.edges|, i requires 0 <= i < |g.edges| =>
        Object(map["from" := Str(g.edges[i].0), "to" := Str(g.edges[i].1)])))])
  }

  /** A JSON artifact as `json.loads` reads it back. */
  datatype JsonFile = Missing | Invalid | Parsed(value: Value)

  const GRAPH_MISSING := "graph.json missing; run tools/pcm_update.py to refresh"
  const GRAPH_INVALID := "graph.json invalid JSON; run tools/pcm_update.py to refresh"
  const GRAPH_STALE := "graph.json is stale. Run tools/pcm_update.py to refresh."

  /** `check_graph`: passes iff there are no modules or the file holds the expected graph. */
  method CheckGraph(modules: seq<ModuleDecl>, file: JsonFile) returns (ok: bool, message: Option<string>)
    ensures ok <==> |modules| == 0 || file == Parsed(GraphValue(ExpectedGraph(modules)))
    ensures ok <==> message == None
    ensures |modules| > 0 && file.Missing? ==> message == Some(GRAPH_MISSING)
    ensures |modules| > 0 && file.Invalid? ==> message == Some(GRAPH_INVALID)
    ensures |modules| > 0 && file.Parsed? && !ok ==> message == Some(GRAPH_STALE)
  {
    if |modules| == 0 {
      return true, None;
    }
    var expected := BuildGraph(modules);
    match file
    case Missing =>
      ok, message := false, Some(GRAPH_MISSING);
    case Invalid =>
      ok, message := false, Some(GRAPH_INVALID);
    case Parsed(current) =>
      if current != GraphValue(expected) {
        ok, message := false, Some(GRAPH_STALE);
      } else {
        ok, message := true, None;
      }
  }

  // ----- Test metadata -----

  /** A line of tests.jsonl; each optional field is present iff the override has its key. */
  datatype TestEntry = TestEntry(path: string, suite: Option<Value>, subjects: Option<Value>, notes: Option<Value>)

  function EntryFor(path: string, meta: Record): (e: TestEntry)
    ensures e.path == path
    ensures e.suite.Some? <==> "test_suite" in meta
    ensures e.subjects.Some? <==> "subjects" in meta
    ensures e.notes.Some? <==> "notes" in meta
    ensures e.suite.Some? ==> e.suite.value == meta["test_suite"]
    ensures e.subjects.Some? ==> e.subjects.value == meta["subjects"]
    ensures e.notes.Some? ==> e.notes.value == meta["notes"]
  {
    TestEntry(path, Get(meta, "test_suite"), Get(meta, "subjects"), Get(meta, "notes"))
  }

  /** The JSON object of an entry: "path" and the present optional keys. */
  function EntryValue(e: TestEntry): Value {
    var base := map["path" := Str(e.path)];
    var withSuite := if e.suite.Some? then base["suite" := e.suite.value] else base;
    var withSubjects := if e.subjects.Some? then withSuite["subjects" := e.subjects.value] else withSuite;
    Object(if e.notes.Some? then withSubjects["notes" := e.notes.value] else withSubjects)
  }

  /** The override marks a test: a truthy `test_suite` or a truthy `subjects`. */
  predicate MarksTest(meta: Record) {
    Truthy(Get(meta, "test_suite").OrElse(Null)) || Truthy(Get(meta, "subjects").OrElse(Null))
  }

  predicate AllHavePath(records: seq<Record>) {
    forall i :: 0 <= i < |records| ==> "path" in records[i]
  }

  /** `{record["path"]: record for record in records}`: a later record wins. */
  function RecordLookup(records: seq<Record>): (lookup: map<Value, Record>)
    requires AllHavePath(records)
  {
    if |records| == 0 then map[]
    else
      var last := records[|records| - 1];
      RecordLookup(records[..|records| - 1])[last["path"] := last]
  }

  /** The path's record exists and has kind "test". */
  predicate IsTestFile(lookup: map<Value, Record>, path: string) {
    Str(path) in lookup && Get(lookup[Str(path)], "kind") == Some(Str(Test.Tag()))
  }

  function MarkedPaths(overrides: map<string, Record>): set<string> {
    set p | p in overrides && MarksTest(overrides[p])
  }

  /** The entries for `paths`, in their order, skipping those that are not test files. */
  function EntriesFor(paths: seq<string>, overrides: map<string, Record>, lookup: map<Value, Record>): seq<TestEntry>
    requires forall i :: 0 <= i < |paths| ==> paths[i] in overrides
  {
    if |paths| == 0 then []
    else
      var p := paths[|paths| - 1];
      EntriesFor(paths[..|paths| - 1], overrides, lookup)
        + (if IsTestFile(lookup, p) then [EntryFor(p, overrides[p])] else [])
  }

  ghost function ExpectedTests(overrides: map<string, Record>, records: seq<Record>): seq<TestEntry>
    requires AllHavePath(records)
  {
    StrLtStrictTotal();
    var paths := SortedOf(MarkedPaths(overrides), StrLt);
    assert forall i | 0 <= i < |paths| :: paths[i] in Elems(paths);
    EntriesFor(paths, overrides, RecordLookup(records))
  }

  /** `build_tests`. */
  method BuildTests(overrides: map<string, Record>, records: seq<Record>) returns (entries: seq<TestEntry>)
    requires AllHavePath(records)
    ensures entries == ExpectedTests(overrides, records)
  {
    StrLtStrictTotal();
    var overridePaths := MarkedPaths(overrides);
    var sortedPaths := SortSet(overridePaths, StrLt);
    assert forall i | 0 <= i < |sortedPaths| :: sortedPaths[i] in Elems(sortedPaths);
    var lookup := RecordLookup(records);
    entries := [];
    var i := 0;
    while i < |sortedPaths|
      invariant 0 <= i <= |sortedPaths|
      invariant entries == EntriesFor(sortedPaths[..i], overrides, lookup)
    {
      var path := sortedPaths[i];
      EntriesForStep(sortedPaths, overrides, lookup, i);
      if Str(path) in lookup && Get(lookup[Str(path)], "kind") == Some(Str("test")) {
        entries := entries + [EntryFor(path, overrides[path])];
      }
      i := i + 1;
    }
    assert sortedPaths[..i] == sortedPaths;
  }

  lemma EntriesForStep(paths: seq<string>, overrides: map<string, Record>, lookup: map<Value, Record>, i: nat)
    requires forall k :: 0 <= k < |paths| ==> paths[k] in overrides
    requires i < |paths|
    ensures EntriesFor(paths[..i + 1], overrides, lookup) ==
      EntriesFor(paths[..i], overrides, lookup)
        + (if IsTestFile(lookup, paths[i]) then [EntryFor(paths[i], overrides[paths[i]])] else [])
  {
    assert paths[..i + 1][..i] == paths[..i];
  }

  function EntryPaths(entries: seq<TestEntry>): seq<string> {
    seq(|entries|, i requires 0 <= i < |entries| => entries[i].path)
  }

  /** Every entry comes from a listed path that is a test file, with its override's fields. */
  lemma {:induction false} EntriesForSound(paths: seq<string>, overrides: map<string, Record>, lookup: map<Value, Record>)
    requires forall i :: 0 <= i < |paths| ==> paths[i] in overrides
    ensures forall e :: e in EntriesFor(paths, overrides, lookup) ==>
      e.path in paths && IsTestFile(lookup, e.path) && e == EntryFor(e.path, overrides[e.path])
    decreases |paths|
  {
    if |paths| > 0 {
      var prefix := paths[..|paths| - 1];
      EntriesForSound(prefix, overrides, lookup);
      assert paths == prefix + [paths[|paths| - 1]];
    }
  }

  /** Every listed path that is a test file has an entry. */
  lemma {:induction false} EntriesForComplete(paths: seq<string>, overrides: map<string, Record>, lookup: map<Value, Record>)
    requires forall i :: 0 <= i < |paths| ==> paths[i] in overrides
    ensures forall p :: p in paths && IsTestFile(lookup, p) ==>
      exists e :: e in EntriesFor(paths, overrides, lookup) && e.path == p
    decreases |paths|
  {
    if |paths| > 0 {
      var prefix := paths[..|paths| - 1];
      var p := paths[|paths| - 1];
      EntriesForComplete(prefix, overrides, lookup);
      assert paths == prefix + [p];
      var es := EntriesFor(paths, overrides, lookup);
      forall q | q in paths && IsTestFile(lookup, q) ensures exists e :: e in es && e.path == q {
        if q == p {
          assert es[|es| - 1].path == q;
        } else {
          assert q in prefix;
          var e :| e in EntriesFor(prefix, overrides, lookup) && e.path == q;
          assert e in es;
        }
      }
    }
  }

  /** The entries keep the (increasing) order of the paths. */
  lemma {:induction false} EntriesForSorted(paths: seq<string>, overrides: map<string, Record>, lookup: map<Value, Record>)
    requires forall i :: 0 <= i < |paths| ==> paths[i] in overrides
    requires StrictTotal(StrLt) && Increasing(paths, StrLt)
    ensures Increasing(EntryPaths(EntriesFor(paths, overrides, lookup)), StrLt)
    decreases |paths|
  {
    if |paths| > 0 {
      var prefix := paths[..|paths| - 1];
      var p := paths[|paths| - 1];
      assert forall i, j | 0 <= i < j < |prefix| :: prefix[i] == paths[i] && prefix[j] == paths[j];
      EntriesForSorted(prefix, overrides, lookup);
      EntriesForSound(prefix, overrides, lookup);
      var es0 := EntriesFor(prefix, overrides, lookup);
      var es := EntriesFor(paths, overrides, lookup);
      forall e | e in es0 ensures StrLt(e.path, p) {
        var k :| 0 <= k < |prefix| && prefix[k] == e.path;
        assert paths[k] == e.path;
      }
      forall i, j | 0 <= i < j < |es| ensures StrLt(EntryPaths(es)[i], EntryPaths(es)[j]) {
        if j < |es0| {
          assert es[i] == es0[i] && es[j] == es0[j];
          assert EntryPaths(es0)[i] == es[i].path && EntryPaths(es0)[j] == es[j].path;
        } else {
          assert es[i] == es0[i] && es0[i] in es0;
        }
      }
    }
  }

  /**
   * `build_tests` lists, sorted by path, exactly the overridden paths that mark a test
   * and whose record has kind "test", with the fields the override supplies.
   */
  lemma ExpectedTestsSpec(overrides: map<string, Record>, records: seq<Record>)
    requires AllHavePath(records)
    ensures var es := ExpectedTests(overrides, records);
      Increasing(EntryPaths(es), StrLt)
      && (forall e :: e in es ==> e.path in overrides && e == EntryFor(e.path, overrides[e.path]))
      && (forall p :: (exists e :: e in es && e.path == p) <==>
            p in overrides && MarksTest(overrides[p]) && IsTestFile(RecordLookup(records), p))
  {
    StrLtStrictTotal();
    var paths := SortedOf(MarkedPaths(overrides), StrLt);
    assert forall i | 0 <= i < |paths| :: paths[i] in Elems(paths);
    EntriesForSorted(paths, overrides, RecordLookup(records));
    EntriesForSound(paths, overrides, RecordLookup(records));
    EntriesForComplete(paths, overrides, RecordLookup(records));
    forall p | p in overrides && MarksTest(overrides[p]) ensures p in paths {
      assert p in Elems(paths);
    }
  }

  function EntryLines(h: Host, entries: seq<TestEntry>): seq<string> {
    seq(|entries|, i requires 0 <= i < |entries| => h.dumps(EntryValue(entries[i])))
  }

  const TESTS_MISSING := "tests.jsonl missing; run tools/pcm_update.py to refresh"
  const TESTS_STALE := "tests.jsonl is stale. Run tools/pcm_update.py to refresh."

  /** `check_tests`: passes iff nothing is expected or the file holds the expected lines. */
  method CheckTests(h: Host, overrides: map<string, Record>, records: seq<Record>, file: Option<seq<string>>)
    returns (ok: bool, message: Option<string>)
    requires AllHavePath(records)
    ensures var expected := ExpectedTests(overrides, records);
      (ok <==> expected == [] || file == Some(EntryLines(h, expected)))
      && (ok <==> message == None)
      && (!ok && file.None? ==> message == Some(TESTS_MISSING))
      && (!ok && file.Some? ==> message == Some(TESTS_STALE))
  {
    var expected := BuildTests(overrides, records);
    if expected == [] {
      return true, None;
    }
    if file.None? {
      return false, Some(TESTS_MISSING);
    }
    if file.value != EntryLines(h, expected) {
      return false, Some(TESTS_STALE);
    }
    return true, None;
  }

  // ----- main -----

  /** The inputs `main` reads, besides the files themselves. */
  datatype Project = Project(
    modules: seq<ModuleDecl>,
    overrides: map<string, Record>,
    discovered: set<string>,
    filesLines: Option<seq<string>>,
    graphFile: JsonFile,
    testsLines: Option<seq<string>>,
    cacheFile: CacheFile)

  predicate Discoverable(h: Host, p: Project) {
    p.discovered <= h.fs.Keys
  }

  function RecordLines(h: Host, records: seq<Record>): seq<string> {
    seq(|records|, i requires 0 <= i < |records| => h.dumps(Object(records[i])))
  }

  /** A set of paths in the order `sorted` gives them. */
  ghost function SortedPaths(s: set<string>): (files: seq<string>)
    ensures Increasing(files, PathLt) && Elems(files) == s
  {
    PathLtStrictTotal();
    SortedOf(s, PathLt)
  }

  /** The sorted discovered files. */
  ghost function SortedFiles(p: Project): (files: seq<string>)
    ensures Increasing(files, PathLt) && Elems(files) == p.discovered
  {
    SortedPaths(p.discovered)
  }

  lemma SortedFilesInHost(h: Host, p: Project)
    requires Discoverable(h, p)
    ensures InHost(h, SortedFiles(p))
  {
    var files := SortedFiles(p);
    assert forall i | 0 <= i < |files| :: files[i] in Elems(files);
  }

  ghost function RunRecords(h: Host, p: Project): seq<Record>
    requires Discoverable(h, p)
  {
    SortedFilesInHost(h, p);
    CollectedRecords(h, LoadCache(p.cacheFile), p.overrides, SortedFiles(p))
  }

  /** The cache has a "path" in every record, so the records `main` builds all have one. */
  predicate RecordsHavePaths(p: Project) {
    p.cacheFile.CacheDoc? ==> forall rel :: rel in p.cacheFile.entries ==> "path" in p.cacheFile.entries[rel].record
  }

  lemma RunRecordsHavePaths(h: Host, p: Project)
    requires Discoverable(h, p) && RecordsHavePaths(p)
    ensures AllHavePath(RunRecords(h, p))
  {
    SortedFilesInHost(h, p);
    var files := SortedFiles(p);
    forall i | 0 <= i < |files| ensures "path" in RunRecords(h, p)[i] {
      CollectedRecordAt(h, LoadCache(p.cacheFile), p.overrides, files, i);
    }
  }

  const FILES_MISSING := "files.jsonl missing; run tools/pcm_update.py to generate"
  const FILES_STALE := "files.jsonl is stale. Run tools/pcm_update.py to refresh."

  function Message(m: Option<string>): seq<string> {
    if m.Some? then [m.value] else []
  }

  /**
   * `main --check`: every applicable check runs and reports, nothing is written, and the
   * exit status is 0 iff the records, the graph (when modules exist) and the test
   * metadata (when overrides exist) are all up to date.
   */
  method Check(h: Host, p: Project) returns (exitCode: int, messages: seq<string>)
    requires Discoverable(h, p) && RecordsHavePaths(p)
    ensures AllHavePath(RunRecords(h, p))
    ensures exitCode == 0 <==>
      p.filesLines == Some(RecordLines(h, RunRecords(h, p)))
      && (|p.modules| > 0 ==> p.graphFile == Parsed(GraphValue(ExpectedGraph(p.modules))))
      && (|p.overrides| > 0 ==>
            (ExpectedTests(p.overrides, RunRecords(h, p)) == [] ||
             p.testsLines == Some(EntryLines(h, ExpectedTests(p.overrides, RunRecords(h, p))))))
    ensures exitCode == 0 || exitCode == 1
    ensures exitCode == 0 <==> messages == []
  {
    PathLtStrictTotal();
    var files := SortSet(p.discovered, PathLt);
    SortedFilesInHost(h, p);
    var existingCache := LoadCache(p.cacheFile);
    var records, _, _ := CollectRecords(h, files, existingCache, p.overrides);
    RunRecordsHavePaths(h, p);
    var recordLines := RecordLines(h, records);
    var ok := true;
    messages := [];
    if p.filesLines.None? {
      messages := messages + [FILES_MISSING];
      ok := false;
    } else if recordLines != p.filesLines.value {
      messages := messages + [FILES_STALE];
      ok := false;
    }
    if |p.modules| > 0 {
      var graphOk, graphMessage := CheckGraph(p.modules, p.graphFile);
      messages := messages + Message(graphMessage);
      ok := graphOk && ok;
    }
    if |p.overrides| > 0 {
      var testsOk, testsMessage := CheckTests(h, p.overrides, records, p.testsLines);
      messages := messages + Message(testsMessage);
      ok := testsOk && ok;
    }
    exitCode := if ok then 0 else 1;
  }

  // ----- main, write mode -----

  /** Record `r` describes file `f`: its "path" is `f`. */
  predicate Describes(r: Record, f: string) {
    Get(r, "path") == Some(Str(f))
  }

  /** Record `r` belongs after file `f` in path order. */
  predicate After(r: Record, f: string) {
    var v := Get(r, "path");
    v.Some? && v.value.Str? && PathLt(f, v.value.s)
  }

  /** The i-th record describes the i-th file. */
  predicate PathsAre(records: seq<Record>, files: seq<string>) {
    |records| == |files| && forall i :: 0 <= i < |files| ==> Describes(records[i], files[i])
  }

  /** The index of the first record describing `rel`, or the length when there is none. */
  function FindPath(records: seq<Record>, rel: string): (i: nat)
    ensures i <= |records|
    ensures i < |records| ==> Describes(records[i], rel)
    ensures forall j :: 0 <= j < i ==> !Describes(records[j], rel)
  {
    if |records| == 0 then 0
    else if Describes(records[0], rel) then 0
    else 1 + FindPath(records[1..], rel)
  }

  /** The splice of `main` as written: replace the record of `rel`, or append at the end. */
  function ReplacedOrAppended(records: seq<Record>, rel: string, refreshed: Record): seq<Record> {
    var i := FindPath(records, rel);
    if i < |records| then records[i := refreshed] else records + [refreshed]
  }

  /** The splice loop of `main` as written. */
  method ReplaceOrAppend(records: seq<Record>, rel: string, refreshed: Record) returns (r: seq<Record>)
    requires AllHavePath(records)
    ensures r == ReplacedOrAppended(records, rel, refreshed)
  {
    r := records;
    var updated := false;
    var idx := 0;
    while idx < |r|
      invariant 0 <= idx <= |records| && r == records && !updated
      invariant forall j :: 0 <= j < idx ==> !Describes(records[j], rel)
    {
      if r[idx]["path"] == Str(rel) {
        r := r[idx := refreshed];
        updated := true;
        break;
      }
      idx := idx + 1;
    }
    if !updated {
      r := r + [refreshed];
    }
  }

  /**
   * A newly created tests.jsonl is appended after every other record although it sorts
   * before them: with one other file, "app/a.kt", the written order is not the order the
   * next run discovers.
   */
  lemma AppendedOutOfOrder(a: string, rel: string, ra: Record, refreshed: Record)
    requires a == "app/a.kt" && rel == REL_TESTS
    requires Describes(ra, a) && Describes(refreshed, rel)
    ensures ReplacedOrAppended([ra], rel, refreshed) == [ra, refreshed]
    ensures !PathsAre(ReplacedOrAppended([ra], rel, refreshed), SortedPaths({a, rel}))
  {
    assert !Describes(ra, rel);
    assert FindPath([ra], rel) == 1;
    TestsFileSortsFirst(a, rel);
  }

  /** `.project_context/tests.jsonl` sorts before `app/a.kt`. */
  lemma TestsFileSortsFirst(a: string, rel: string)
    requires a == "app/a.kt" && rel == REL_TESTS
    ensures SortedPaths({a, rel}) == [rel, a]
  {
    assert rel[0] == '.' && a[0] == 'a';
    assert PathLt(rel, a);
    PairSorted(rel, a);
    assert {a, rel} == {rel, a};
  }

  /** Two paths in order are the sorted listing of the pair. */
  lemma PairSorted(x: string, y: string)
    requires PathLt(x, y)
    ensures SortedPaths({x, y}) == [x, y]
  {
    PathLtStrictTotal();
    assert Increasing([x, y], PathLt);
    assert Elems([x, y]) == {x, y};
    IncreasingUnique([x, y], SortedPaths({x, y}), PathLt);
  }



  /** The first record that describes `rel` or comes after it. */
  function InsertionPoint(records: seq<Record>, rel: string): (i: nat)
    ensures i <= |records|
    ensures i < |records| ==> Describes(records[i], rel) || After(records[i], rel)
    ensures forall j :: 0 <= j < i ==> !Describes(records[j], rel) && !After(records[j], rel)
  {
    if |records| == 0 then 0
    else if Describes(records[0], rel) || After(records[0], rel) then 0
    else 1 + InsertionPoint(records[1..], rel)
  }

  /** The splice with the refreshed record inserted at its sorted position when it is new. */
  function Spliced(records: seq<Record>, rel: string, refreshed: Record): seq<Record> {
    var i := InsertionPoint(records, rel);
    if i < |records| && Describes(records[i], rel) then records[i := refreshed]
    else records[..i] + [refreshed] + records[i..]
  }

  /** The splice loop, stopping at the record of `rel` or at the first record after it. */
  method ReplaceOrInsert(records: seq<Record>, rel: string, refreshed: Record) returns (r: seq<Record>)
    requires AllHavePath(records)
    ensures r == Spliced(records, rel, refreshed)
  {
    var idx := 0;
    while idx < |records|
      invariant 0 <= idx <= |records|
      invariant forall j :: 0 <= j < idx ==> !Describes(records[j], rel) && !After(records[j], rel)
    {
      var path := records[idx]["path"];
      if path == Str(rel) {
        return records[idx := refreshed];
      }
      if path.Str? && PathLt(rel, path.s) {
        break;
      }
      idx := idx + 1;
    }
    r := records[..idx] + [refreshed] + records[idx..];
  }

  /** Where the refreshed record is new, the files before the insertion point sort below it, the rest above. */
  lemma InsertionPointSplits(records: seq<Record>, files: seq<string>, rel: string)
    requires PathsAre(records, files) && Increasing(files, PathLt)
    requires var i := InsertionPoint(records, rel); !(i < |records| && Describes(records[i], rel))
    ensures var i := InsertionPoint(records, rel);
      (forall j :: 0 <= j < i ==> PathLt(files[j], rel)) && (forall j :: i <= j < |files| ==> PathLt(rel, files[j]))
  {
    PathLtStrictTotal();
    var i := InsertionPoint(records, rel);
    forall j | 0 <= j < i ensures PathLt(files[j], rel) {
      assert !Describes(records[j], rel) && !After(records[j], rel) && Describes(records[j], files[j]);
    }
    forall j | i <= j < |files| ensures PathLt(rel, files[j]) {
      assert Describes(records[i], files[i]) && After(records[i], rel);
      assert j == i || PathLt(files[i], files[j]);
    }
  }

  /** Inserting a path at the position that splits increasing files keeps them increasing. */
  lemma InsertIncreasing(files: seq<string>, i: nat, rel: string)
    requires i <= |files| && Increasing(files, PathLt)
    requires forall j :: 0 <= j < i ==> PathLt(files[j], rel)
    requires forall j :: i <= j < |files| ==> PathLt(rel, files[j])
    ensures Increasing(files[..i] + [rel] + files[i..], PathLt)
    ensures Elems(files[..i] + [rel] + files[i..]) == Elems(files) + {rel}
  {
    InsertedOrder(files, i, rel);
    InsertedElems(files, i, rel);
  }

  lemma InsertedOrder(files: seq<string>, i: nat, rel: string)
    requires i <= |files| && Increasing(files, PathLt)
    requires forall j :: 0 <= j < i ==> PathLt(files[j], rel)
    requires forall j :: i <= j < |files| ==> PathLt(rel, files[j])
    ensures Increasing(files[..i] + [rel] + files[i..], PathLt)
  {
    var files' := files[..i] + [rel] + files[i..];
    assert forall j | 0 <= j < |files'| :: files'[j] == if j < i then files[j] else if j == i then rel else files[j - 1];
  }

  lemma InsertedElems(files: seq<string>, i: nat, rel: string)
    requires i <= |files|
    ensures Elems(files[..i] + [rel] + files[i..]) == Elems(files) + {rel}
  {
    var files' := files[..i] + [rel] + files[i..];
    assert forall j | 0 <= j < |files'| :: files'[j] == if j < i then files[j] else if j == i then rel else files[j - 1];
    forall x ensures x in Elems(files') <==> x in Elems(files) + {rel} {
      if x in Elems(files) {
        var k :| 0 <= k < |files| && files[k] == x;
        assert files'[if k < i then k else k + 1] == x;
      }
      assert files'[i] == rel;
    }
  }

  /** The records of the insertion case follow the files with `rel` inserted at the same place. */
  lemma InsertedPaths(records: seq<Record>, files: seq<string>, i: nat, refreshed: Record, rel: string)
    requires PathsAre(records, files) && i <= |records| && Describes(refreshed, rel)
    ensures PathsAre(records[..i] + [refreshed] + records[i..], files[..i] + [rel] + files[i..])
  {
    var r := records[..i] + [refreshed] + records[i..];
    var files' := files[..i] + [rel] + files[i..];
    assert forall j | 0 <= j < |r| :: r[j] == if j < i then records[j] else if j == i then refreshed else records[j - 1];
    assert forall j | 0 <= j < |r| :: files'[j] == if j < i then files[j] else if j == i then rel else files[j - 1];
  }

  /** The files the spliced records follow: unchanged on a replacement, `rel` inserted otherwise. */
  lemma InsertAtFollows(records: seq<Record>, files: seq<string>, rel: string, refreshed: Record)
    requires PathsAre(records, files) && Increasing(files, PathLt) && Describes(refreshed, rel)
    ensures var i := InsertionPoint(records, rel);
      var files' := if i < |records| && Describes(records[i], rel) then files else files[..i] + [rel] + files[i..];
      PathsAre(Spliced(records, rel, refreshed), files') && Increasing(files', PathLt) && Elems(files') == Elems(files) + {rel}
  {
    var i := InsertionPoint(records, rel);
    if i < |records| && Describes(records[i], rel) {
      ReplaceAtFollows(records, files, i, rel, refreshed);
    } else {
      InsertNewFollows(records, files, rel, refreshed);
    }
  }

  lemma ReplaceAtFollows(records: seq<Record>, files: seq<string>, i: nat, rel: string, refreshed: Record)
    requires PathsAre(records, files) && Describes(refreshed, rel)
    requires i < |records| && Describes(records[i], rel)
    ensures PathsAre(records[i := refreshed], files) && Elems(files) == Elems(files) + {rel}
  {
    assert files[i] == rel && files[i] in Elems(files);
  }

  lemma InsertNewFollows(records: seq<Record>, files: seq<string>, rel: string, refreshed: Record)
    requires PathsAre(records, files) && Increasing(files, PathLt) && Describes(refreshed, rel)
    requires var i := InsertionPoint(records, rel); !(i < |records| && Describes(records[i], rel))
    ensures var i := InsertionPoint(records, rel);
      var files' := files[..i] + [rel] + files[i..];
      PathsAre(records[..i] + [refreshed] + records[i..], files') && Increasing(files', PathLt) && Elems(files') == Elems(files) + {rel}
  {
    var i := InsertionPoint(records, rel);
    InsertionPointSplits(records, files, rel);
    InsertIncreasing(files, i, rel);
    InsertedPaths(records, files, i, refreshed, rel);
  }

  /** Replacing the record of `rel`, which increasing files hold once, keeps every other record. */
  lemma ReplacedKeepsOthers(records: seq<Record>, files: seq<string>, i: nat, rel: string, refreshed: Record)
    requires PathsAre(records, files) && Increasing(files, PathLt) && Describes(refreshed, rel)
    requires i < |records| && Describes(records[i], rel)
    ensures forall k :: 0 <= k < |records| && k != i ==> !Describes(records[k], rel)
  {
    PathLtStrictTotal();
    forall k | 0 <= k < |records| && k != i ensures !Describes(records[k], rel) {
      assert Describes(records[k], files[k]) && files[i] == rel;
      assert PathLt(files[k], files[i]) || PathLt(files[i], files[k]);
    }
  }

  /** Where `rel` is new, no old record describes it. */
  lemma InsertedKeepsOthers(records: seq<Record>, files: seq<string>, rel: string)
    requires PathsAre(records, files) && Increasing(files, PathLt)
    requires var i := InsertionPoint(records, rel); !(i < |records| && Describes(records[i], rel))
    ensures forall k :: 0 <= k < |records| ==> !Describes(records[k], rel)
  {
    InsertionPointSplits(records, files, rel);
    PathLtIrreflexive(rel);
    forall k | 0 <= k < |records| ensures !Describes(records[k], rel) {
      assert Describes(records[k], files[k]);
      assert PathLt(files[k], rel) || PathLt(rel, files[k]);
    }
  }

  /** Only the record of `rel` is new in the splice; every other record is an old one. */
  lemma SplicedKeepsOthers(records: seq<Record>, files: seq<string>, rel: string, refreshed: Record)
    requires PathsAre(records, files) && Increasing(files, PathLt) && Describes(refreshed, rel)
    ensures forall k :: 0 <= k < |Spliced(records, rel, refreshed)| ==>
      var x := Spliced(records, rel, refreshed)[k];
      (Describes(x, rel) ==> x == refreshed) && (!Describes(x, rel) ==> x in records)
  {
    var i := InsertionPoint(records, rel);
    var r := Spliced(records, rel, refreshed);
    if i < |records| && Describes(records[i], rel) {
      ReplacedKeepsOthers(records, files, i, rel, refreshed);
      assert forall k | 0 <= k < |r| :: r[k] == if k == i then refreshed else records[k];
    } else {
      InsertedKeepsOthers(records, files, rel);
      assert forall k | 0 <= k < |r| :: r[k] == if k < i then records[k] else if k == i then refreshed else records[k - 1];
    }
  }

  /**
   * Splicing the refreshed record into records that follow increasing files gives
   * records that follow the sorted files with `rel` added; every record but that of
   * `rel` is an old one.
   */
  lemma SplicedFollowsFiles(records: seq<Record>, files: seq<string>, rel: string, refreshed: Record)
    requires PathsAre(records, files) && Increasing(files, PathLt) && Describes(refreshed, rel)
    ensures PathsAre(Spliced(records, rel, refreshed), SortedPaths(Elems(files) + {rel}))
    ensures forall k :: 0 <= k < |Spliced(records, rel, refreshed)| ==>
      var x := Spliced(records, rel, refreshed)[k];
      (Describes(x, rel) ==> x == refreshed) && (!Describes(x, rel) ==> x in records)
  {
    PathLtStrictTotal();
    InsertAtFollows(records, files, rel, refreshed);
    var i := InsertionPoint(records, rel);
    var files' := if i < |records| && Describes(records[i], rel) then files else files[..i] + [rel] + files[i..];
    IncreasingUnique(files', SortedPaths(Elems(files) + {rel}), PathLt);
    SplicedKeepsOthers(records, files, rel, refreshed);
  }

  /** `[record for record in records if record["path"] != rel]`. */
  function WithoutPath(records: seq<Record>, rel: string): (r: seq<Record>)
    ensures forall x :: x in r <==> x in records && !Describes(x, rel)
  {
    if |records| == 0 then []
    else (if Describes(records[0], rel) then [] else [records[0]]) + WithoutPath(records[1..], rel)
  }

  /** The files other than `rel`, in order. */
  function FilesWithout(files: seq<string>, rel: string): (r: seq<string>)
    ensures Elems(r) == Elems(files) - {rel}
  {
    if |files| == 0 then []
    else
      var t := FilesWithout(files[1..], rel);
      assert Elems(files) == {files[0]} + Elems(files[1..]) by {
        forall x | x in Elems(files) ensures x == files[0] || x in Elems(files[1..]) {
          var k :| 0 <= k < |files| && files[k] == x;
          if k > 0 { assert files[1..][k - 1] == x; }
        }
      }
      var r := (if files[0] == rel then [] else [files[0]]) + t;
      assert forall x :: x in Elems(r) <==> (x == files[0] && x != rel) || x in Elems(t) by {
        forall x ensures x in Elems(r) <==> (x == files[0] && x != rel) || x in Elems(t) {
          if x in Elems(t) {
            var k :| 0 <= k < |t| && t[k] == x;
            assert r[|r| - |t| + k] == x;
          }
          if x in Elems(r) {
            var k :| 0 <= k < |r| && r[k] == x;
            if k >= |r| - |t| { assert t[k - (|r| - |t|)] == x; }
          }
        }
      }
      r
  }

  /** Filtering records that follow increasing files follows the files without `rel`, still increasing. */
  lemma WithoutPathFollows(records: seq<Record>, files: seq<string>, rel: string)
    requires PathsAre(records, files) && Increasing(files, PathLt)
    ensures PathsAre(WithoutPath(records, rel), FilesWithout(files, rel))
    ensures Increasing(FilesWithout(files, rel), PathLt)
  {
    WithoutPathPaths(records, files, rel);
    FilesWithoutIncreasing(files, rel);
  }

  lemma {:induction false} WithoutPathPaths(records: seq<Record>, files: seq<string>, rel: string)
    requires PathsAre(records, files)
    ensures PathsAre(WithoutPath(records, rel), FilesWithout(files, rel))
    decreases |files|
  {
    if |files| > 0 {
      assert PathsAre(records[1..], files[1..]) by {
        assert forall k | 0 <= k < |files| - 1 :: records[1..][k] == records[k + 1] && files[1..][k] == files[k + 1];
      }
      WithoutPathPaths(records[1..], files[1..], rel);
      assert Describes(records[0], files[0]) && (Describes(records[0], rel) <==> files[0] == rel);
    }
  }

  lemma {:induction false} FilesWithoutIncreasing(files: seq<string>, rel: string)
    requires Increasing(files, PathLt)
    ensures Increasing(FilesWithout(files, rel), PathLt)
    decreases |files|
  {
    if |files| > 0 {
      assert Increasing(files[1..], PathLt) by {
        assert forall a, b | 0 <= a < b < |files| - 1 :: files[1..][a] == files[a + 1] && files[1..][b] == files[b + 1];
      }
      FilesWithoutIncreasing(files[1..], rel);
      var t := FilesWithout(files[1..], rel);
      forall k | 0 <= k < |t| ensures PathLt(files[0], t[k]) {
        assert t[k] in Elems(t);
        var m :| 0 <= m < |files[1..]| && files[1..][m] == t[k];
        assert files[m + 1] == t[k];
      }
    }
  }


  /** Without overrides no path is marked, so no test metadata is built. */
  lemma NoOverridesNoTests(overrides: map<string, Record>, records: seq<Record>)
    requires AllHavePath(records) && |overrides| == 0
    ensures ExpectedTests(overrides, records) == []
  {
    StrLtStrictTotal();
    assert MarkedPaths(overrides) == {};
    ElemsEmpty(SortedOf(MarkedPaths(overrides), StrLt));
  }

  /** The test metadata `main` writes: the built entries, or none (tests.jsonl removed). */
  ghost function WrittenTests(h: Host, p: Project): seq<TestEntry>
    requires Discoverable(h, p) && RecordsHavePaths(p)
  {
    RunRecordsHavePaths(h, p);
    ExpectedTests(p.overrides, RunRecords(h, p))
  }

  /** The host once tests.jsonl has been written with stat `testsStat`. */
  function TestsHost(h: Host, testsStat: FileStat): (h': Host)
    ensures REL_TESTS in h'.fs
  {
    h.(fs := h.fs[REL_TESTS := testsStat])
  }

  /** `build_record(TESTS_PATH)` on the freshly written file, with its override applied. */
  function Refreshed(h: Host, p: Project, testsStat: FileStat): (r: Record)
    ensures Describes(r, REL_TESTS) || (REL_TESTS in p.overrides && "path" in p.overrides[REL_TESTS])
  {
    Overlay(BuildRecord(TestsHost(h, testsStat), REL_TESTS), p.overrides, REL_TESTS)
  }

  /** The records `main` writes to files.jsonl. */
  ghost function WrittenRecords(h: Host, p: Project, testsStat: FileStat): seq<Record>
    requires Discoverable(h, p) && RecordsHavePaths(p)
  {
    if WrittenTests(h, p) != [] then Spliced(RunRecords(h, p), REL_TESTS, Refreshed(h, p, testsStat))
    else WithoutPath(RunRecords(h, p), REL_TESTS)
  }

  /** The cache `main` writes. */
  ghost function WrittenCache(h: Host, p: Project, testsStat: FileStat): map<string, CacheEntry>
    requires Discoverable(h, p) && RecordsHavePaths(p)
  {
    SortedFilesInHost(h, p);
    var c := CollectedCache(h, LoadCache(p.cacheFile), SortedFiles(p));
    if WrittenTests(h, p) != [] then
      c[REL_TESTS := CacheEntry(testsStat.size, testsStat.mtimeNs, BuildRecord(TestsHost(h, testsStat), REL_TESTS))]
    else c - {REL_TESTS}
  }

  /**
   * `main` without `--check`, from the state after graph.json is written (the graph is
   * written before the files are listed). `graph` is the graph written, if any; `tests` the
   * lines of tests.jsonl, or None when the file is removed; `testsStat` the stat of the
   * freshly written tests.jsonl. The records and cache are those written to files.jsonl
   * and to the cache file.
   */
  method Write(h: Host, p: Project, testsStat: FileStat)
    returns (graph: Option<Value>, tests: Option<seq<string>>, records: seq<Record>, cache: map<string, CacheEntry>)
    requires Discoverable(h, p) && RecordsHavePaths(p)
    ensures graph == if |p.modules| > 0 then Some(GraphValue(ExpectedGraph(p.modules))) else None
    ensures tests == if WrittenTests(h, p) == [] then None else Some(EntryLines(h, WrittenTests(h, p)))
    ensures records == WrittenRecords(h, p, testsStat)
    ensures cache == WrittenCache(h, p, testsStat)
  {
    graph := None;
    if |p.modules| > 0 {
      var g := BuildGraph(p.modules);
      graph := Some(GraphValue(g));
    }
    PathLtStrictTotal();
    var files := SortSet(p.discovered, PathLt);
    SortedFilesInHost(h, p);
    var existingCache := LoadCache(p.cacheFile);
    var collected, newCache, built := CollectRecords(h, files, existingCache, p.overrides);
    tests, records, cache := WriteTests(h, p, testsStat, collected, newCache);
  }

  /** The part of `main` after `collect_records`: tests.jsonl, then its record and cache entry. */
  method WriteTests(h: Host, p: Project, testsStat: FileStat, collected: seq<Record>, collectedCache: map<string, CacheEntry>)
    returns (tests: Option<seq<string>>, records: seq<Record>, cache: map<string, CacheEntry>)
    requires Discoverable(h, p) && RecordsHavePaths(p)
    requires collected == RunRecords(h, p)
    requires InHost(h, SortedFiles(p)) && collectedCache == CollectedCache(h, LoadCache(p.cacheFile), SortedFiles(p))
    ensures tests == if WrittenTests(h, p) == [] then None else Some(EntryLines(h, WrittenTests(h, p)))
    ensures records == WrittenRecords(h, p, testsStat)
    ensures cache == WrittenCache(h, p, testsStat)
  {
    RunRecordsHavePaths(h, p);
    tests := None;
    var entries: seq<TestEntry> := [];
    if |p.overrides| > 0 {
      entries := BuildTests(p.overrides, collected);
    } else {
      NoOverridesNoTests(p.overrides, collected);
    }
    if |entries| > 0 {
      tests := Some(EntryLines(h, entries));
      var refreshedBase := BuildRecord(TestsHost(h, testsStat), REL_TESTS);
      var refreshed := Overlay(refreshedBase, p.overrides, REL_TESTS);
      records := ReplaceOrInsert(collected, REL_TESTS, refreshed);
      cache := collectedCache[REL_TESTS := CacheEntry(testsStat.size, testsStat.mtimeNs, refreshedBase)];
    } else {
      records := WithoutPath(collected, REL_TESTS);
      cache := collectedCache - {REL_TESTS};
    }
  }

  /** The files the next run discovers: tests.jsonl added when written, gone when removed. */
  ghost function NextDiscovered(h: Host, p: Project): set<string>
    requires Discoverable(h, p) && RecordsHavePaths(p)
  {
    if WrittenTests(h, p) != [] then p.discovered + {REL_TESTS} else p.discovered - {REL_TESTS}
  }

  /** The host after `main`: tests.jsonl written with `testsStat`, or removed. */
  ghost function NextHost(h: Host, p: Project, testsStat: FileStat): Host
    requires Discoverable(h, p) && RecordsHavePaths(p)
  {
    if WrittenTests(h, p) != [] then TestsHost(h, testsStat) else h.(fs := h.fs - {REL_TESTS})
  }

  /** What the next run reads: the files, graph, test metadata and cache `main` wrote. */
  ghost function NextProject(h: Host, p: Project, testsStat: FileStat): Project
    requires Discoverable(h, p) && RecordsHavePaths(p)
  {
    var written := WrittenTests(h, p);
    p.(discovered := NextDiscovered(h, p),
       filesLines := Some(RecordLines(h, WrittenRecords(h, p, testsStat))),
       graphFile := if |p.modules| > 0 then Parsed(GraphValue(ExpectedGraph(p.modules))) else p.graphFile,
       testsLines := if written == [] then None else Some(EntryLines(h, written)),
       cacheFile := CacheDoc(Some(Int(CACHE_VERSION)), WrittenCache(h, p, testsStat)))
  }

  /** The conditions under which a run's output is read back: as `main` itself writes them. */
  ghost predicate Consistent(h: Host, p: Project) {
    Discoverable(h, p) && RecordsHavePaths(p) && WellFormedCache(LoadCache(p.cacheFile)) && PathFreeOverrides(p.overrides)
  }

  lemma NextDiscoverable(h: Host, p: Project, testsStat: FileStat)
    requires Consistent(h, p)
    ensures Discoverable(NextHost(h, p, testsStat), NextProject(h, p, testsStat))
    ensures RecordsHavePaths(NextProject(h, p, testsStat))
    ensures LoadCache(NextProject(h, p, testsStat).cacheFile) == WrittenCache(h, p, testsStat)
    ensures NextProject(h, p, testsStat).overrides == p.overrides
    ensures NextProject(h, p, testsStat).discovered == NextDiscovered(h, p)
  {
    NextHostHasFiles(h, p, testsStat);
    WrittenCacheHasPaths(h, p, testsStat);
    LoadWrittenCache(WrittenCache(h, p, testsStat));
  }

  lemma NextHostHasFiles(h: Host, p: Project, testsStat: FileStat)
    requires Consistent(h, p)
    ensures NextDiscovered(h, p) <= NextHost(h, p, testsStat).fs.Keys
  {
  }

  lemma WrittenCacheHasPaths(h: Host, p: Project, testsStat: FileStat)
    requires Consistent(h, p)
    ensures forall rel :: rel in WrittenCache(h, p, testsStat) ==> "path" in WrittenCache(h, p, testsStat)[rel].record
  {
    SortedFilesInHost(h, p);
    var cache := LoadCache(p.cacheFile);
    var c := CollectedCache(h, cache, SortedFiles(p));
    CollectedCacheWellFormed(h, cache, SortedFiles(p));
    var w := WrittenCache(h, p, testsStat);
    forall rel | rel in w ensures "path" in w[rel].record {
      if rel != REL_TESTS {
        assert w[rel] == c[rel];
        assert Get(c[rel].record, "path") == Some(Str(rel));
      }
    }
  }

  /** `load_cache` reads back a cache file as `write_cache` writes it. */
  lemma LoadWrittenCache(c: map<string, CacheEntry>)
    ensures LoadCache(CacheDoc(Some(Int(CACHE_VERSION)), c)) == c
  {
  }

  /** The records of a run follow the sorted discovered files. */
  lemma RunRecordsFollowFiles(h: Host, p: Project)
    requires Consistent(h, p)
    ensures PathsAre(RunRecords(h, p), SortedFiles(p))
  {
    SortedFilesInHost(h, p);
    RecordsFollowFiles(h, LoadCache(p.cacheFile), p.overrides, SortedFiles(p));
  }

  /** The written records follow the files the next run discovers, in its order. */
  lemma WrittenRecordsFollow(h: Host, p: Project, testsStat: FileStat)
    requires Consistent(h, p)
    ensures PathsAre(WrittenRecords(h, p, testsStat), SortedPaths(NextDiscovered(h, p)))
    ensures forall k :: 0 <= k < |WrittenRecords(h, p, testsStat)| ==>
      var x := WrittenRecords(h, p, testsStat)[k];
      (Describes(x, REL_TESTS) ==> x == Refreshed(h, p, testsStat)) &&
      (!Describes(x, REL_TESTS) ==> x in RunRecords(h, p))
  {
    var files := SortedFiles(p);
    var runs := RunRecords(h, p);
    RunRecordsFollowFiles(h, p);
    if WrittenTests(h, p) != [] {
      SplicedFollowsFiles(runs, files, REL_TESTS, Refreshed(h, p, testsStat));
    } else {
      WithoutPathFollows(runs, files, REL_TESTS);
      PathLtStrictTotal();
      IncreasingUnique(FilesWithout(files, REL_TESTS), SortedPaths(NextDiscovered(h, p)), PathLt);
    }
  }

  /** The record written for a file other than tests.jsonl is its record of this run, rebuilt from the cache. */
  lemma NextRecordOther(h: Host, p: Project, testsStat: FileStat, i: nat)
    requires Consistent(h, p)
    requires PathsAre(WrittenRecords(h, p, testsStat), SortedPaths(NextDiscovered(h, p)))
    requires i < |WrittenRecords(h, p, testsStat)| && SortedPaths(NextDiscovered(h, p))[i] != REL_TESTS
    requires var x := WrittenRecords(h, p, testsStat)[i]; !Describes(x, REL_TESTS) ==> x in RunRecords(h, p)
    ensures var f := SortedPaths(NextDiscovered(h, p))[i];
      var h' := NextHost(h, p, testsStat);
      var c' := WrittenCache(h, p, testsStat);
      f in h'.fs && CacheHit(c', f, h'.fs[f]) &&
      WrittenRecords(h, p, testsStat)[i] == Overlay(BaseRecord(h', c', f), p.overrides, f)
  {
    var next := SortedPaths(NextDiscovered(h, p));
    var f := next[i];
    assert f in Elems(next);
    var x := WrittenRecords(h, p, testsStat)[i];
    var files := SortedFiles(p);
    var cache := LoadCache(p.cacheFile);
    var runs := RunRecords(h, p);
    RunRecordsFollowFiles(h, p);
    assert Describes(x, f);
    var j :| 0 <= j < |runs| && runs[j] == x;
    assert files[j] == f;
    SortedFilesInHost(h, p);
    CollectedRecordAt(h, cache, p.overrides, files, j);
    NextFileKept(h, p, testsStat, f);
  }

  /** A discovered file other than tests.jsonl keeps its stat, and the written cache its collected entry. */
  lemma NextFileKept(h: Host, p: Project, testsStat: FileStat, f: string)
    requires Consistent(h, p) && f in p.discovered && f != REL_TESTS
    ensures var h' := NextHost(h, p, testsStat);
      f in h'.fs && h'.fs[f] == h.fs[f] && f in WrittenCache(h, p, testsStat) &&
      WrittenCache(h, p, testsStat)[f] == CacheEntry(h.fs[f].size, h.fs[f].mtimeNs, BaseRecord(h, LoadCache(p.cacheFile), f))
  {
    SortedFilesInHost(h, p);
    var files := SortedFiles(p);
    assert f in Elems(files);
    var c := CollectedCache(h, LoadCache(p.cacheFile), files);
    CollectedCacheAt(h, LoadCache(p.cacheFile), files, f);
    var w := WrittenCache(h, p, testsStat);
    if WrittenTests(h, p) != [] {
      assert w == c[REL_TESTS := CacheEntry(testsStat.size, testsStat.mtimeNs, BuildRecord(TestsHost(h, testsStat), REL_TESTS))];
      assert NextHost(h, p, testsStat) == TestsHost(h, testsStat);
    } else {
      assert w == c - {REL_TESTS};
      assert NextHost(h, p, testsStat) == h.(fs := h.fs - {REL_TESTS});
    }
  }

  /** The record written for tests.jsonl is the refreshed one, which the written cache holds. */
  lemma NextRecordTests(h: Host, p: Project, testsStat: FileStat, i: nat)
    requires Consistent(h, p)
    requires PathsAre(WrittenRecords(h, p, testsStat), SortedPaths(NextDiscovered(h, p)))
    requires i < |WrittenRecords(h, p, testsStat)| && SortedPaths(NextDiscovered(h, p))[i] == REL_TESTS
    requires var x := WrittenRecords(h, p, testsStat)[i]; Describes(x, REL_TESTS) ==> x == Refreshed(h, p, testsStat)
    ensures var h' := NextHost(h, p, testsStat);
      var c' := WrittenCache(h, p, testsStat);
      REL_TESTS in h'.fs && CacheHit(c', REL_TESTS, h'.fs[REL_TESTS]) &&
      WrittenRecords(h, p, testsStat)[i] == Overlay(BaseRecord(h', c', REL_TESTS), p.overrides, REL_TESTS)
  {
    var next := SortedPaths(NextDiscovered(h, p));
    assert next[i] in Elems(next);
    assert WrittenTests(h, p) != [];
    assert NextHost(h, p, testsStat) == TestsHost(h, testsStat);
  }

  /** Every record `main` writes is the one the next run builds from the written cache. */
  lemma NextRecordAt(h: Host, p: Project, testsStat: FileStat, i: nat)
    requires Consistent(h, p)
    requires i < |WrittenRecords(h, p, testsStat)|
    ensures PathsAre(WrittenRecords(h, p, testsStat), SortedPaths(NextDiscovered(h, p)))
    ensures var f := SortedPaths(NextDiscovered(h, p))[i];
      var h' := NextHost(h, p, testsStat);
      var c' := WrittenCache(h, p, testsStat);
      f in h'.fs && CacheHit(c', f, h'.fs[f]) &&
      WrittenRecords(h, p, testsStat)[i] == Overlay(BaseRecord(h', c', f), p.overrides, f)
  {
    WrittenRecordsFollow(h, p, testsStat);
    if SortedPaths(NextDiscovered(h, p))[i] == REL_TESTS {
      NextRecordTests(h, p, testsStat, i);
    } else {
      NextRecordOther(h, p, testsStat, i);
    }
  }

  /**
   * Reading back what `main` wrote: the next run discovers, from the cache written, the
   * records written to files.jsonl, in the same order, and rebuilds (hashes) nothing.
   */
  lemma NextRunReadsWrittenRecords(h: Host, p: Project, testsStat: FileStat)
    requires Consistent(h, p)
    ensures Discoverable(NextHost(h, p, testsStat), NextProject(h, p, testsStat))
    ensures RunRecords(NextHost(h, p, testsStat), NextProject(h, p, testsStat)) == WrittenRecords(h, p, testsStat)
    ensures forall f :: f in NextDiscovered(h, p) ==>
      f in NextHost(h, p, testsStat).fs && CacheHit(WrittenCache(h, p, testsStat), f, NextHost(h, p, testsStat).fs[f])
  {
    NextDiscoverable(h, p, testsStat);
    NextRunRecordsAreWritten(h, p, testsStat);
    NextRunHitsCache(h, p, testsStat);
  }

  lemma NextRunRecordsAreWritten(h: Host, p: Project, testsStat: FileStat)
    requires Consistent(h, p)
    requires Discoverable(NextHost(h, p, testsStat), NextProject(h, p, testsStat))
    ensures RunRecords(NextHost(h, p, testsStat), NextProject(h, p, testsStat)) == WrittenRecords(h, p, testsStat)
  {
    var h', p' := NextHost(h, p, testsStat), NextProject(h, p, testsStat);
    NextDiscoverable(h, p, testsStat);
    SortedFilesInHost(h', p');
    var files' := SortedFiles(p');
    var c' := WrittenCache(h, p, testsStat);
    var w := WrittenRecords(h, p, testsStat);
    WrittenRecordsFollow(h, p, testsStat);
    var r := CollectedRecords(h', c', p.overrides, files');
    forall i | 0 <= i < |w| ensures w[i] == r[i] {
      NextRecordAt(h, p, testsStat, i);
      CollectedRecordAt(h', c', p.overrides, files', i);
    }
  }

  lemma NextRunHitsCache(h: Host, p: Project, testsStat: FileStat)
    requires Consistent(h, p)
    ensures forall f :: f in NextDiscovered(h, p) ==>
      f in NextHost(h, p, testsStat).fs && CacheHit(WrittenCache(h, p, testsStat), f, NextHost(h, p, testsStat).fs[f])
  {
    forall f | f in NextDiscovered(h, p)
      ensures f in NextHost(h, p, testsStat).fs && CacheHit(WrittenCache(h, p, testsStat), f, NextHost(h, p, testsStat).fs[f])
    {
      NextRunHitsCacheAt(h, p, testsStat, f);
    }
  }

  lemma NextRunHitsCacheAt(h: Host, p: Project, testsStat: FileStat, f: string)
    requires Consistent(h, p)
    requires f in NextDiscovered(h, p)
    ensures f in NextHost(h, p, testsStat).fs && CacheHit(WrittenCache(h, p, testsStat), f, NextHost(h, p, testsStat).fs[f])
  {
    var files' := SortedPaths(NextDiscovered(h, p));
    WrittenRecordsFollow(h, p, testsStat);
    assert f in Elems(files');
    var i :| 0 <= i < |files'| && files'[i] == f;
    NextRecordAt(h, p, testsStat, i);
  }

  /**
   * After `main` writes, the files and graph conditions of `main --check` hold on what
   * it wrote: files.jsonl holds the lines of the records the check rebuilds, and
   * graph.json the graph of the modules.
   */
  lemma WriteThenCheckFilesAndGraph(h: Host, p: Project, testsStat: FileStat)
    requires Consistent(h, p)
    ensures Discoverable(NextHost(h, p, testsStat), NextProject(h, p, testsStat))
    ensures var h', p' := NextHost(h, p, testsStat), NextProject(h, p, testsStat);
      p'.filesLines == Some(RecordLines(h', RunRecords(h', p'))) &&
      (|p'.modules| > 0 ==> p'.graphFile == Parsed(GraphValue(ExpectedGraph(p'.modules))))
  {
    NextRunReadsWrittenRecords(h, p, testsStat);
    assert NextHost(h, p, testsStat).dumps == h.dumps;
  }
}
