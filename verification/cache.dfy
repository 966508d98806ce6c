/** The on-disk cache of alchemy/loader.py: where an entry lives, when it may
    be reused, and what `_load_documents` and the index builders read from it
    and write back.

    The file system is a map from paths to entries. An entry's age stands for
    `time.time() - path.stat().st_mtime`, rounded down to whole seconds: since
    `max_age` is an integer, `age < max_age` has the same truth value for the
    exact age and for its floor. The GitHub reader, pickling and the index
    library are passed in as functions. */
module Cache {
  import opened Wrappers
  import opened Text
  import opened Seqs
  import opened LoaderOptions

  /* ---------------------------------------------------------------------
     Names
     --------------------------------------------------------------------- */

  /** The ref in the name: the commit when one is given and non-empty, the branch otherwise. */
  function Ref(ro: RepoOptions): string {
    if ro.commitSha.Some? && |ro.commitSha.value| > 0 then ro.commitSha.value else ro.branch
  }

  /** `_get_cache_name` */
  function CacheName(ro: RepoOptions): string {
    ro.owner + "-" + ro.repo + "-" + Ref(ro)
  }

  /** Only the owner, the repository and the ref enter the name: the reader
      options do not, nor does a branch once a commit is given. */
  lemma CacheNameIgnoresReaderOptions(ro: RepoOptions, other: RepoOptions)
    requires other.owner == ro.owner && other.repo == ro.repo
    requires other.commitSha == ro.commitSha
    requires ro.commitSha.None? || ro.commitSha == Some("") ==> other.branch == ro.branch
    ensures CacheName(other) == CacheName(ro)
  {
  }

  /** Reading a name back: owner up to the first `-`, repository up to the
      second, the ref is the rest. */
  function ParseCacheName(name: string): Option<(string, string, string)> {
    var parts := SplitOn(name, "-");
    if |parts| < 3 then None
    else Some((parts[0], parts[1], JoinWith(parts[2..], "-")))
  }

  /** Reading back `<owner>-<repo>-<ref>` when owner and repository have no `-`. */
  lemma ParseJoinedName(owner: string, repo: string, r: string)
    requires '-' !in owner && '-' !in repo
    ensures ParseCacheName(owner + "-" + repo + "-" + r) == Some((owner, repo, r))
  {
    var name := owner + "-" + repo + "-" + r;
    var rest := SplitOn(r, "-");
    var parts := SplitOn(name, "-");
    assert parts == [owner, repo] + rest by {
      assert name == owner + ['-'] + (repo + ['-'] + r);
      SplitAtFirst(owner, '-', repo + ['-'] + r);
      SplitAtFirst(repo, '-', r);
    }
    assert parts[2..] == rest;
    assert JoinWith(rest, "-") == r by {
      JoinSplit(r, "-");
    }
  }

  /** When neither owner nor repository contains `-`, the name determines
      all three of its parts. */
  lemma CacheNameRoundTrip(ro: RepoOptions)
    requires '-' !in ro.owner && '-' !in ro.repo
    ensures ParseCacheName(CacheName(ro)) == Some((ro.owner, ro.repo, Ref(ro)))
  {
    ParseJoinedName(ro.owner, ro.repo, Ref(ro));
  }

  /** Otherwise two different repositories can share a name, and so a cache entry. */
  lemma CacheNamesCollide()
    ensures CacheName(DefaultRepoOptions("a-b", "c")) == CacheName(DefaultRepoOptions("a", "b-c"))
  {
    assert "a-b" + "-" + "c" == "a" + "-" + "b-c";
  }

  /** `f".{ext}" if ext else ""` */
  function Suffix(ext: Option<string>): string {
    if ext.Some? && |ext.value| > 0 then "." + ext.value else ""
  }

  /** The file name `_get_cache_path` appends to the cache directory. */
  function CacheFileName(ro: RepoOptions, ext: Option<string>): string {
    CacheName(ro) + Suffix(ext)
  }

  /** The name has the suffix only for a non-empty extension, and different
      extensions give different names. */
  lemma CacheFileNameSuffix(ro: RepoOptions, ext: Option<string>, ext2: Option<string>)
    ensures ext.None? || ext == Some("") ==> CacheFileName(ro, ext) == CacheName(ro)
    ensures ext.Some? && |ext.value| > 0 ==> CacheFileName(ro, ext) == CacheName(ro) + "." + ext.value
    ensures Suffix(ext) != Suffix(ext2) ==> CacheFileName(ro, ext) != CacheFileName(ro, ext2)
  {
    var n := CacheName(ro);
    assert Suffix(ext) == CacheFileName(ro, ext)[|n|..];
    assert Suffix(ext2) == CacheFileName(ro, ext2)[|n|..];
  }

  /* ---------------------------------------------------------------------
     Paths, as `pathlib` composes them
     --------------------------------------------------------------------- */

  /** A POSIX path as `pathlib` holds it: rooted or not, and its components. */
  datatype PurePath = PurePath(absolute: bool, parts: seq<string>)

  /** `pathlib` drops empty and `.` components. */
  function Component(c: string): Option<string> {
    if c == "" || c == "." then None else Some(c)
  }

  function Components(s: string): seq<string> {
    FilterMap(SplitOn(s, "/"), Component)
  }

  /** `PurePosixPath(s)` */
  function ParsePath(s: string): PurePath {
    PurePath(StartsWith(s, "/"), Components(s))
  }

  /** `p / name`: a rooted name replaces the path; otherwise its components are appended. */
  function Join(p: PurePath, name: string): PurePath {
    if StartsWith(name, "/") then ParsePath(name) else PurePath(p.absolute, p.parts + Components(name))
  }

  /** `_get_cache_path`: `dir` is the cache directory after `expanduser`. */
  function CachePath(dir: PurePath, ro: RepoOptions, ext: Option<string>): PurePath {
    Join(dir, CacheFileName(ro, ext))
  }

  /** Unless the owner starts with `/`, the cache file lies under the cache
      directory; a rooted owner makes the name rooted, and the directory is
      dropped. */
  lemma CachePathInDirectory(dir: PurePath, ro: RepoOptions, ext: Option<string>)
    ensures var p := CachePath(dir, ro, ext);
      !StartsWith(ro.owner, "/") ==>
        p.absolute == dir.absolute && |p.parts| >= |dir.parts| && p.parts[..|dir.parts|] == dir.parts
    ensures StartsWith(ro.owner, "/") ==> CachePath(dir, ro, ext) == ParsePath(CacheFileName(ro, ext))
  {
    var name := CacheFileName(ro, ext);
    assert name[0] == if |ro.owner| > 0 then ro.owner[0] else '-';
    assert StartsWith(name, "/") <==> StartsWith(ro.owner, "/");
  }

  /** A string without `/`, other than "" and ".", is a single component. */
  lemma SingleComponent(s: string)
    requires '/' !in s && s != "" && s != "."
    ensures Components(s) == [s]
  {
    ContainsChar(s, '/');
    SplitSingle(s, "/");
    assert SplitOn(s, "/") == [s];
    assert [s][..0] == [];
  }

  /** With no `/` in the owner, repository, ref or extension, the cache path is
      the cache directory with exactly one more component, the file name. */
  lemma CachePathOneComponent(dir: PurePath, ro: RepoOptions, ext: Option<string>)
    requires '/' !in ro.owner && '/' !in ro.repo && '/' !in Ref(ro)
    requires ext.Some? ==> '/' !in ext.value
    ensures CachePath(dir, ro, ext) == PurePath(dir.absolute, dir.parts + [CacheFileName(ro, ext)])
  {
    var name := CacheFileName(ro, ext);
    assert name == ro.owner + "-" + ro.repo + "-" + Ref(ro) + Suffix(ext);
    assert '/' !in name;
    assert name[|ro.owner|] == '-';
    assert name != ".";
    SingleComponent(name);
    assert !StartsWith(name, "/") by {
      if |ro.owner| > 0 {
        assert name[0] == ro.owner[0];
      }
    }
  }

  /** Two such strings joined by one `/` are two components. */
  lemma TwoComponents(x: string, y: string)
    requires '/' !in x && x != "" && x != "."
    requires '/' !in y && y != "" && y != "."
    ensures Components(x + "/" + y) == [x, y]
  {
    assert x + "/" + y == x + ['/'] + y;
    SplitAtFirst(x, '/', y);
    ContainsChar(y, '/');
    SplitSingle(y, "/");
    assert SplitOn(x + "/" + y, "/") == [x, y];
    assert [x, y][..1] == [x];
    assert [x][..0] == [];
    assert FilterMap([x], Component) == [x];
  }

  /** A name that does not start with `/` is appended to the directory. */
  lemma JoinRelative(dir: PurePath, name: string)
    requires |name| > 0 && name[0] != '/'
    ensures Join(dir, name) == PurePath(dir.absolute, dir.parts + Components(name))
  {
    assert !StartsWith(name, "/") by {
      assert name[..1][0] == name[0];
    }
  }

  /** A branch such as `feature/x` is not one component: the cache file then
      sits in a subdirectory named after the part before the `/`. */
  lemma CachePathNests(dir: PurePath, ro: RepoOptions, ext: Option<string>, a: string, b: string)
    requires '/' !in ro.owner && '/' !in ro.repo && '/' !in a && '/' !in b
    requires ext.Some? ==> '/' !in ext.value
    requires Ref(ro) == a + "/" + b && b != "" && b != "."
    ensures CachePath(dir, ro, ext).parts == dir.parts + [ro.owner + "-" + ro.repo + "-" + a, b + Suffix(ext)]
  {
    var sfx := Suffix(ext);
    var x := ro.owner + "-" + ro.repo + "-" + a;
    var y := b + sfx;
    var name := CacheFileName(ro, ext);
    assert name == x + "/" + y;
    assert '/' !in sfx;
    assert '/' !in x;
    assert '/' !in y;
    assert y != "." by {
      assert |y| >= |b| > 0;
      assert y[0] == b[0];
      if |y| == 1 {
        assert y == b;
      }
    }
    assert x[|ro.owner|] == '-';
    TwoComponents(x, y);
    assert name[0] == x[0];
    JoinRelative(dir, name);
  }

  /** A `/`-free suffix of two or more characters ends the last component. */
  lemma ComponentsAppend(s: string, sfx: string)
    requires '/' !in sfx && |sfx| >= 2
    ensures var pieces := SplitOn(s, "/");
      Components(s + sfx) == FilterMap(pieces[..|pieces| - 1], Component) + [pieces[|pieces| - 1] + sfx]
  {
    var pieces := SplitOn(s, "/");
    SplitOnAppend(s, '/', sfx);
    var all := SplitOn(s + sfx, "/");
    assert all[..|all| - 1] == pieces[..|pieces| - 1];
    assert Component(all[|all| - 1]) == Some(pieces[|pieces| - 1] + sfx);
  }

  /** Files under two different extensions never share a path, whatever `/`
      the owner, repository or ref holds: the names differ in their last
      component. */
  lemma CacheFilesDistinct(dir: PurePath, ro: RepoOptions, ext: string, ext2: string)
    requires ext != ext2 && |ext| > 0 && |ext2| > 0 && '/' !in ext && '/' !in ext2
    ensures CachePath(dir, ro, Some(ext)) != CachePath(dir, ro, Some(ext2))
  {
    var n := CacheName(ro);
    var pieces := SplitOn(n, "/");
    var last := pieces[|pieces| - 1];
    var s, s2 := Suffix(Some(ext)), Suffix(Some(ext2));
    ComponentsAppend(n, s);
    ComponentsAppend(n, s2);
    var p, p2 := CachePath(dir, ro, Some(ext)), CachePath(dir, ro, Some(ext2));
    assert StartsWith(n + s, "/") <==> StartsWith(n + s2, "/") by {
      assert n[0] == (n + s)[0] == (n + s2)[0];
    }
    assert p.parts[|p.parts| - 1] == last + s;
    assert p2.parts[|p2.parts| - 1] == last + s2;
    assert s != s2 by {
      assert s[1..] == ext && s2[1..] == ext2;
    }
    assert last + s != last + s2 by {
      assert (last + s)[|last|..] == s;
      assert (last + s2)[|last|..] == s2;
    }
  }

  /* ---------------------------------------------------------------------
     Staleness
     --------------------------------------------------------------------- */

  /** `_cache_is_usable`: fresh enough, or not forced. */
  predicate CacheIsUsable(age: int, co: CacheOptions) {
    age < co.maxAge || !co.forceUpdate
  }

  /** Without `force_update` an entry of any age is reused; with it, exactly
      the entries younger than `max_age` are, so forcing does not bypass a
      fresh entry. A usable entry stays usable at any smaller age. */
  lemma UsableTruthTable(age: int, co: CacheOptions, younger: int)
    ensures !co.forceUpdate ==> CacheIsUsable(age, co)
    ensures co.forceUpdate ==> (CacheIsUsable(age, co) <==> age < co.maxAge)
    ensures younger <= age && CacheIsUsable(age, co) ==> CacheIsUsable(younger, co)
  {
  }

  /* ---------------------------------------------------------------------
     The store and the two cache calls
     --------------------------------------------------------------------- */

  /** A cached file: its bytes, and its age in seconds. */
  datatype Entry = Entry(data: seq<bv8>, age: int)

  /** The cache directory's files, by path. */
  type Store = map<PurePath, Entry>

  /** `_get_cache`: the bytes of an existing, usable entry, or None. */
  function GetCache(store: Store, dir: PurePath, ro: RepoOptions, co: CacheOptions, ext: string): (r: Option<seq<bv8>>)
    ensures var p := CachePath(dir, ro, Some(ext));
      && (r.Some? <==> p in store && CacheIsUsable(store[p].age, co))
      && (r.Some? ==> r.value == store[p].data)
  {
    var p := CachePath(dir, ro, Some(ext));
    if p in store && CacheIsUsable(store[p].age, co) then Some(store[p].data) else None
  }

  /** `_put_cache`: the entry is written now, so its age is zero. */
  function PutCache(store: Store, dir: PurePath, ro: RepoOptions, ext: string, data: seq<bv8>): (r: Store)
    ensures var p := CachePath(dir, ro, Some(ext));
      && r.Keys == store.Keys + {p}
      && r[p] == Entry(data, 0)
      && forall q :: q in store && q != p ==> r[q] == store[q]
  {
    store[CachePath(dir, ro, Some(ext)) := Entry(data, 0)]
  }

  /** `if cache := _get_cache(...)`: empty bytes are falsy, so an empty entry misses too. */
  function Lookup(store: Store, dir: PurePath, ro: RepoOptions, co: CacheOptions, ext: string): Option<seq<bv8>> {
    match GetCache(store, dir, ro, co, ext)
    case Some(data) => if |data| > 0 then Some(data) else None
    case None => None
  }

  /** An entry is a hit iff it exists, is usable and is non-empty. */
  predicate Hit(store: Store, p: PurePath, co: CacheOptions) {
    p in store && CacheIsUsable(store[p].age, co) && |store[p].data| > 0
  }

  const DocsExt: string := "docs.pkl"
  const SimpleVectorExt: string := "sv.idx.json"
  const ListExt: string := "l.idx.json"
  const KnowledgeGraphExt: string := "kg.idx.json"

  /** What `_load_documents` returns, with the store after it and whether it
      had to read the repository. */
  datatype Loaded<D> = Loaded(docs: D, store: Store, fetched: bool)

  /** `_load_documents`. `fetch` stands for `GithubRepositoryReader(**kwargs).load_data(commit_sha, branch)`;
      `dumps` and `loads` for `pickle.dumps` and `pickle.loads`. */
  function LoadDocuments<D>(
    store: Store, dir: PurePath, ro: RepoOptions, co: CacheOptions,
    fetch: (map<RepoField, Value>, Option<string>, string) -> D,
    dumps: D -> seq<bv8>, loads: seq<bv8> -> D): (r: Loaded<D>)
    ensures var p := CachePath(dir, ro, Some(DocsExt));
      && (r.fetched <==> !Hit(store, p, co))
      && (!r.fetched ==> r.docs == loads(store[p].data) && r.store == store)
      && (r.fetched ==>
            && r.docs == fetch(ReaderKwargs(ro), ro.commitSha, ro.branch)
            && r.store == store[p := Entry(dumps(r.docs), 0)])
  {
    match Lookup(store, dir, ro, co, DocsExt)
    case Some(data) => Loaded(loads(data), store, false)
    case None =>
      var docs := fetch(ReaderKwargs(ro), ro.commitSha, ro.branch);
      Loaded(docs, PutCache(store, dir, ro, DocsExt, dumps(docs)), true)
  }

  /** A second load right after a fetch is served from the cache, returns the
      same documents and writes nothing, provided the pickle round-trips and
      is non-empty, and an entry of age zero is usable. */
  lemma LoadDocumentsTwice<D>(
    store: Store, dir: PurePath, ro: RepoOptions, co: CacheOptions,
    fetch: (map<RepoField, Value>, Option<string>, string) -> D,
    dumps: D -> seq<bv8>, loads: seq<bv8> -> D)
    requires var first := LoadDocuments(store, dir, ro, co, fetch, dumps, loads);
      loads(dumps(first.docs)) == first.docs && |dumps(first.docs)| > 0
    requires co.maxAge > 0 || !co.forceUpdate
    ensures var first := LoadDocuments(store, dir, ro, co, fetch, dumps, loads);
      var second := LoadDocuments(first.store, dir, ro, co, fetch, dumps, loads);
      !second.fetched && second.docs == first.docs && second.store == first.store
  {
    var first := LoadDocuments(store, dir, ro, co, fetch, dumps, loads);
    var p := CachePath(dir, ro, Some(DocsExt));
    assert Hit(first.store, p, co);
  }

  /** With the default `CacheOptions()` the age never matters: a load is
      served from the cache exactly when the entry exists and is non-empty. */
  lemma DefaultOptionsIgnoreAge<D>(
    store: Store, dir: PurePath, ro: RepoOptions,
    fetch: (map<RepoField, Value>, Option<string>, string) -> D,
    dumps: D -> seq<bv8>, loads: seq<bv8> -> D)
    ensures var p := CachePath(dir, ro, Some(DocsExt));
      var r := LoadDocuments(store, dir, ro, DefaultCacheOptions, fetch, dumps, loads);
      r.fetched <==> !(p in store && |store[p].data| > 0)
  {
  }

  /** With `force_update` and `max_age` at most zero, no entry of non-negative
      age is ever reused: every load reads the repository. */
  lemma ForcedLoadAlwaysFetches<D>(
    store: Store, dir: PurePath, ro: RepoOptions, co: CacheOptions,
    fetch: (map<RepoField, Value>, Option<string>, string) -> D,
    dumps: D -> seq<bv8>, loads: seq<bv8> -> D)
    requires co.forceUpdate && co.maxAge <= 0
    requires forall q :: q in store ==> store[q].age >= 0
    ensures LoadDocuments(store, dir, ro, co, fetch, dumps, loads).fetched
  {
  }

  /* ---------------------------------------------------------------------
     Index builders
     --------------------------------------------------------------------- */

  /** An index, with the store after building it and whether it was rebuilt. */
  datatype Built<I> = Built(index: I, store: Store, rebuilt: bool)

  /** `create_simple_vector_index`. `build` stands for `from_documents` under a
      chat model made from the given arguments, which are the truthy options
      only, as the source filters them, `save` for
      `json.dumps(index.save_to_dict())`, `load` for `load_from_string`. */
  function CreateSimpleVectorIndex<D, I>(
    store: Store, dir: PurePath, ro: RepoOptions, co: CacheOptions, mo: ModelOptions,
    fetch: (map<RepoField, Value>, Option<string>, string) -> D,
    dumps: D -> seq<bv8>, loads: seq<bv8> -> D,
    build: (map<ModelField, Value>, D) -> I, save: I -> seq<bv8>, load: seq<bv8> -> I): (r: Built<I>)
    ensures var p := CachePath(dir, ro, Some(SimpleVectorExt));
      && (r.rebuilt <==> !Hit(store, p, co))
      && (!r.rebuilt ==> r.index == load(store[p].data) && r.store == store)
      && (r.rebuilt ==>
            var ld := LoadDocuments(store, dir, ro, co, fetch, dumps, loads);
            && r.index == build(ChatKwargsAsWritten(mo), ld.docs)
            && r.store == ld.store[p := Entry(save(r.index), 0)])
  {
    match Lookup(store, dir, ro, co, SimpleVectorExt)
    case Some(data) => Built(load(data), store, false)
    case None =>
      var ld := LoadDocuments(store, dir, ro, co, fetch, dumps, loads);
      var index := build(ChatKwargsAsWritten(mo), ld.docs);
      Built(index, PutCache(ld.store, dir, ro, SimpleVectorExt, save(index)), true)
  }

  /** With the bot's options a rebuild hands the chat model exactly the three
      options the bot sets; the two False flags are filtered out. */
  lemma BotIndexOptions<D, I>(
    store: Store, dir: PurePath, ro: RepoOptions, co: CacheOptions,
    fetch: (map<RepoField, Value>, Option<string>, string) -> D,
    dumps: D -> seq<bv8>, loads: seq<bv8> -> D,
    build: (map<ModelField, Value>, D) -> I, save: I -> seq<bv8>, load: seq<bv8> -> I)
    ensures var r := CreateSimpleVectorIndex(store, dir, ro, co, BotModelOptions, fetch, dumps, loads, build, save, load);
      r.rebuilt ==>
        r.index == build(map[ModelName := StrV("gpt-4"), Temperature := FloatV(0.2), RequestTimeout := IntV(600)],
                         LoadDocuments(store, dir, ro, co, fetch, dumps, loads).docs)
  {
    BotChatKwargs();
  }

  /** A second call right after a rebuild is served from the cache, returns the
      same index and writes nothing, under the same conditions as for documents. */
  lemma SimpleVectorIndexTwice<D, I>(
    store: Store, dir: PurePath, ro: RepoOptions, co: CacheOptions, mo: ModelOptions,
    fetch: (map<RepoField, Value>, Option<string>, string) -> D,
    dumps: D -> seq<bv8>, loads: seq<bv8> -> D,
    build: (map<ModelField, Value>, D) -> I, save: I -> seq<bv8>, load: seq<bv8> -> I)
    requires var first := CreateSimpleVectorIndex(store, dir, ro, co, mo, fetch, dumps, loads, build, save, load);
      load(save(first.index)) == first.index && |save(first.index)| > 0
    requires co.maxAge > 0 || !co.forceUpdate
    ensures var first := CreateSimpleVectorIndex(store, dir, ro, co, mo, fetch, dumps, loads, build, save, load);
      var second := CreateSimpleVectorIndex(first.store, dir, ro, co, mo, fetch, dumps, loads, build, save, load);
      !second.rebuilt && second.index == first.index && second.store == first.store
  {
    var first := CreateSimpleVectorIndex(store, dir, ro, co, mo, fetch, dumps, loads, build, save, load);
    var p := CachePath(dir, ro, Some(SimpleVectorExt));
    assert Hit(first.store, p, co);
  }

  /** After a rebuild both the documents and the index are on disk, as
      separate files, and every other file is untouched. */
  lemma {:induction false} SimpleVectorIndexWrites<D, I>(
    store: Store, dir: PurePath, ro: RepoOptions, co: CacheOptions, mo: ModelOptions,
    fetch: (map<RepoField, Value>, Option<string>, string) -> D,
    dumps: D -> seq<bv8>, loads: seq<bv8> -> D,
    build: (map<ModelField, Value>, D) -> I, save: I -> seq<bv8>, load: seq<bv8> -> I)
    ensures var r := CreateSimpleVectorIndex(store, dir, ro, co, mo, fetch, dumps, loads, build, save, load);
      var docsPath := CachePath(dir, ro, Some(DocsExt));
      var indexPath := CachePath(dir, ro, Some(SimpleVectorExt));
      && docsPath != indexPath
      && (r.rebuilt ==> docsPath in r.store && r.store[indexPath] == Entry(save(r.index), 0))
      && forall q :: q in store && q != docsPath && q != indexPath ==> q in r.store && r.store[q] == store[q]
  {
    assert DocsExt[0] != SimpleVectorExt[0];
    CacheFilesDistinct(dir, ro, DocsExt, SimpleVectorExt);
  }

  /** `create_list_index` and `create_knowledge_graph_index`: their cache read
      is switched off (`if 0 == 1`), so they always rebuild, whatever the
      store holds, and then write the index under their own extension. */
  function CreateRebuiltIndex<D, I>(
    ext: string,
    store: Store, dir: PurePath, ro: RepoOptions, co: CacheOptions, mo: ModelOptions,
    fetch: (map<RepoField, Value>, Option<string>, string) -> D,
    dumps: D -> seq<bv8>, loads: seq<bv8> -> D,
    build: (map<ModelField, Value>, D) -> I, save: I -> seq<bv8>): (r: Built<I>)
    ensures r.rebuilt
    ensures var ld := LoadDocuments(store, dir, ro, co, fetch, dumps, loads);
      && r.index == build(ChatKwargsAsWritten(mo), ld.docs)
      && r.store == ld.store[CachePath(dir, ro, Some(ext)) := Entry(save(r.index), 0)]
  {
    var ld := LoadDocuments(store, dir, ro, co, fetch, dumps, loads);
    var index := build(ChatKwargsAsWritten(mo), ld.docs);
    Built(index, PutCache(ld.store, dir, ro, ext, save(index)), true)
  }

  /** Even a fresh, usable cached index is ignored by the list and knowledge
      graph builders, where the simple vector builder would reuse its own. */
  lemma ListIndexIgnoresCache<D, I>(
    store: Store, dir: PurePath, ro: RepoOptions, co: CacheOptions, mo: ModelOptions,
    fetch: (map<RepoField, Value>, Option<string>, string) -> D,
    dumps: D -> seq<bv8>, loads: seq<bv8> -> D,
    build: (map<ModelField, Value>, D) -> I, save: I -> seq<bv8>, load: seq<bv8> -> I)
    requires Hit(store, CachePath(dir, ro, Some(ListExt)), co)
    requires Hit(store, CachePath(dir, ro, Some(KnowledgeGraphExt)), co)
    requires Hit(store, CachePath(dir, ro, Some(SimpleVectorExt)), co)
    ensures CreateRebuiltIndex(ListExt, store, dir, ro, co, mo, fetch, dumps, loads, build, save).rebuilt
    ensures CreateRebuiltIndex(KnowledgeGraphExt, store, dir, ro, co, mo, fetch, dumps, loads, build, save).rebuilt
    ensures !CreateSimpleVectorIndex(store, dir, ro, co, mo, fetch, dumps, loads, build, save, load).rebuilt
  {
  }
}
