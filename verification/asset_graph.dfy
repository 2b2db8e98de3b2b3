/** The bundler's dependency graph and the two lookups over it,
    `findChunkWithName` and `findAssetWithName`. The graph is a JavaScript
    object whose values are searched with `Object.values(..).find(..)`; the
    model keeps only the values, in iteration order. */
module AssetGraph {
  import opened Wrappers
  import opened Text
  import PathParse

  /** One value of the graph: a chunk or an asset record. Chunks carry the
      id of the module they were built from; assets usually carry none. */
  datatype Entry = Entry(isAsset: bool, facadeModuleId: Option<string>, fileName: string)

  type Graph = seq<Entry>

  /** What a lookup searches for: a chunk by a suffix of its module id, or an
      asset by its logical (un-hashed) file name. */
  datatype Query = ChunkFor(suffix: string) | AssetFor(logicalName: string)

  /** `desc.facadeModuleId || ""`: a missing id reads as the empty string. */
  function ModuleIdOrEmpty(e: Entry): string {
    match e.facadeModuleId
    case None => ""
    case Some(id) => id
  }

  /** The chunk test: the module id ends with `suffix`. The entry's
      `isAsset` tag is not consulted. */
  predicate IsChunkFor(e: Entry, suffix: string) {
    EndsWith(ModuleIdOrEmpty(e), suffix)
  }

  /** A string matching `/^-[0-9a-f]+$/`. */
  predicate IsHashSuffix(s: string) {
    |s| > 0 && s[0] == '-' && IsLowerHex(s[1..])
  }

  /** The asset test, in the order the source applies it: an asset, the same
      extension, a file name that starts with the logical name, and what is
      left of the file name is a hash suffix. */
  predicate IsAssetFor(e: Entry, logicalName: string) {
    var want := PathParse.Parse(logicalName);
    var got := PathParse.Parse(e.fileName);
    && e.isAsset
    && got.ext == want.ext
    && StartsWith(got.name, want.name)
    && IsHashSuffix(got.name[|want.name|..])
  }

  /** The callback a lookup hands to `find`. */
  function TestFor(q: Query): Entry -> bool {
    match q
    case ChunkFor(suffix) => e => IsChunkFor(e, suffix)
    case AssetFor(logicalName) => e => IsAssetFor(e, logicalName)
  }

  predicate Satisfies(e: Entry, q: Query) {
    TestFor(q)(e)
  }

  /** `i` is where `find` stops: the first entry that satisfies `q`. */
  predicate IsFirstMatch(g: Graph, q: Query, i: int) {
    0 <= i < |g| && Satisfies(g[i], q) && forall j :: 0 <= j < i ==> !Satisfies(g[j], q)
  }

  /** The linear search `find` performs, from position `from` on: the first
      position holding an element that passes `test`. */
  function FirstFrom<T>(xs: seq<T>, test: T -> bool, from: nat): (r: Option<nat>)
    requires from <= |xs|
    ensures r.Some? ==> from <= r.value < |xs| && test(xs[r.value])
    ensures r.Some? ==> forall j :: from <= j < r.value ==> !test(xs[j])
    ensures r.None? <==> forall j :: from <= j < |xs| ==> !test(xs[j])
    decreases |xs| - from
  {
    if from == |xs| then None
    else if test(xs[from]) then Some(from)
    else FirstFrom(xs, test, from + 1)
  }

  /** `Object.values(graph).find(desc => Satisfies(desc, q))`. */
  function Find(g: Graph, q: Query): (r: Option<Entry>)
    ensures r.Some? ==> exists i :: IsFirstMatch(g, q, i) && g[i] == r.value
    ensures r.None? <==> forall i :: 0 <= i < |g| ==> !Satisfies(g[i], q)
  {
    match FirstFrom(g, TestFor(q), 0)
    case None => None
    case Some(i) =>
      assert IsFirstMatch(g, q, i);
      Some(g[i])
  }

  /** `findChunkWithName`: the first entry whose module id ends with `name`,
      chunk or not. */
  function FindChunkWithName(g: Graph, name: string): (r: Option<Entry>)
    ensures r.Some? ==> EndsWith(ModuleIdOrEmpty(r.value), name)
    ensures r.Some? ==> exists i :: 0 <= i < |g| && g[i] == r.value
                         && forall j :: 0 <= j < i ==> !IsChunkFor(g[j], name)
    ensures r.None? <==> forall i :: 0 <= i < |g| ==> !EndsWith(ModuleIdOrEmpty(g[i]), name)
  {
    Find(g, ChunkFor(name))
  }

  /** `name` is `base`, a hyphen, and one or more lower-case hex digits. */
  ghost predicate IsHashedName(name: string, base: string) {
    exists h :: IsLowerHex(h) && name == base + "-" + h
  }

  /** The prefix test followed by the hash-suffix test on the remainder
      accepts exactly the names that are `base` plus `-<hex>`. */
  lemma HashSuffixIsHashedName(name: string, base: string)
    ensures StartsWith(name, base) && IsHashSuffix(name[|base|..]) <==> IsHashedName(name, base)
  {
    if StartsWith(name, base) && IsHashSuffix(name[|base|..]) {
      var h := name[|base|..][1..];
      assert name == base + "-" + h;
    }
    if IsHashedName(name, base) {
      var h :| IsLowerHex(h) && name == base + "-" + h;
      assert name[|base|..] == "-" + h;
      assert name[|base|..][1..] == h;
    }
  }

  /** The hash grammar of `findAssetWithName`, stated without the prefix test
      and the slice: an asset matches exactly when it has the logical name's
      extension and its name is the logical name plus `-<hex>`. */
  lemma AssetMatchIsHashedName(e: Entry, logicalName: string)
    ensures IsAssetFor(e, logicalName) <==>
              && e.isAsset
              && PathParse.Parse(e.fileName).ext == PathParse.Parse(logicalName).ext
              && IsHashedName(PathParse.Parse(e.fileName).name, PathParse.Parse(logicalName).name)
  {
    HashSuffixIsHashedName(PathParse.Parse(e.fileName).name, PathParse.Parse(logicalName).name);
  }

  /** `findAssetWithName`: the first asset whose file name is the logical name
      with a `-<hex>` hash spliced in before the extension. */
  function FindAssetWithName(g: Graph, name: string): (r: Option<Entry>)
    ensures r.Some? ==> && r.value.isAsset
                        && PathParse.Parse(r.value.fileName).ext == PathParse.Parse(name).ext
                        && IsHashedName(PathParse.Parse(r.value.fileName).name, PathParse.Parse(name).name)
    ensures r.Some? ==> exists i :: 0 <= i < |g| && g[i] == r.value
                         && forall j :: 0 <= j < i ==> !IsAssetFor(g[j], name)
    ensures r.None? <==> forall i :: 0 <= i < |g| ==> !IsAssetFor(g[i], name)
  {
    var r := Find(g, AssetFor(name));
    if r.Some? then AssetMatchIsHashedName(r.value, name); r else r
  }

  /** A file named `<base>-<hex><ext>` is an asset for the logical name
      `<base><ext>`, so a graph holding such an asset always resolves that
      name. */
  lemma HashedFileIsFound(g: Graph, i: nat, base: string, hex: string, ext: string)
    requires i < |g| && g[i].isAsset && g[i].fileName == base + "-" + hex + ext
    requires IsLowerHex(hex)
    requires base != "" && '/' !in base && base + ext != ".."
    requires |ext| > 0 && ext[0] == '.' && '.' !in ext[1..] && '/' !in ext
    ensures IsAssetFor(g[i], base + ext)
    ensures FindAssetWithName(g, base + ext).Some?
  {
    var name := base + "-" + hex;
    HashedFileParses(base, hex, ext);
    assert IsHashedName(name, base);
    AssetMatchIsHashedName(g[i], base + ext);
  }

  /** The hashed file name and the logical name parse into the expected
      names around the same extension. */
  lemma HashedFileParses(base: string, hex: string, ext: string)
    requires IsLowerHex(hex)
    requires base != "" && '/' !in base && base + ext != ".."
    requires |ext| > 0 && ext[0] == '.' && '.' !in ext[1..] && '/' !in ext
    ensures PathParse.Parse(base + ext) == PathParse.ParsedPath(base, ext)
    ensures PathParse.Parse(base + "-" + hex + ext) == PathParse.ParsedPath(base + "-" + hex, ext)
  {
    PathParse.ParseComposed(base, ext);
    var name := base + "-" + hex;
    assert forall k :: 0 <= k < |hex| ==> hex[k] != '/';
    assert '/' !in name;
    PathParse.ParseComposed(name, ext);
  }

  /** The hash grammar turns away an unhashed file, an empty hash, and a
      remainder with any character outside `[0-9a-f]` after its hyphen (an
      upper-case hash, or a longer logical name such as `icon-maskable`
      under the query `icon`). */
  lemma AssetRejections(e: Entry, logicalName: string)
    ensures var got := PathParse.Parse(e.fileName).name;
            var want := PathParse.Parse(logicalName).name;
            && (got == want ==> !IsAssetFor(e, logicalName))
            && (got == want + "-" ==> !IsAssetFor(e, logicalName))
            && ((exists k :: |want| < k < |got| && !IsLowerHexDigit(got[k])) ==> !IsAssetFor(e, logicalName))
  {
    var got := PathParse.Parse(e.fileName).name;
    var want := PathParse.Parse(logicalName).name;
    AssetMatchIsHashedName(e, logicalName);
    HashedNameShape(got, want);
  }

  /** A hashed name is longer than its base plus the hyphen, and every
      character after the hyphen is a lower-case hex digit. */
  lemma HashedNameShape(name: string, base: string)
    ensures IsHashedName(name, base) ==>
              && |name| > |base| + 1
              && forall k :: |base| < k < |name| ==> IsLowerHexDigit(name[k])
  {
    if IsHashedName(name, base) {
      var h :| IsLowerHex(h) && name == base + "-" + h;
      assert forall k :: |base| < k < |name| ==> name[k] == h[k - |base| - 1];
    }
  }

  /** `find` stops at the same position in two sequences on which its test
      agrees element by element. */
  lemma {:induction false} FirstFromAgrees<T>(xs: seq<T>, ys: seq<T>, test: T -> bool, from: nat)
    requires from <= |xs| == |ys|
    requires forall j :: 0 <= j < |xs| ==> test(xs[j]) == test(ys[j])
    ensures FirstFrom(xs, test, from) == FirstFrom(ys, test, from)
    decreases |xs| - from
  {
    if from < |xs| {
      FirstFromAgrees(xs, ys, test, from + 1);
    }
  }

  /** The chunk lookup does not look at the `isAsset` tag: retagging any
      entry leaves the file name it returns unchanged. */
  lemma ChunkLookupIgnoresAssetTag(g: Graph, i: nat, tag: bool, name: string)
    requires i < |g|
    ensures var g' := g[i := g[i].(isAsset := tag)];
            && (FindChunkWithName(g', name).None? <==> FindChunkWithName(g, name).None?)
            && (FindChunkWithName(g', name).Some? ==>
                  FindChunkWithName(g', name).value.fileName == FindChunkWithName(g, name).value.fileName)
  {
    var g' := g[i := g[i].(isAsset := tag)];
    var test := TestFor(ChunkFor(name));
    assert forall j :: 0 <= j < |g| ==> test(g[j]) == test(g'[j]);
    FirstFromAgrees(g, g', test, 0);
  }
}
