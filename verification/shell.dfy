/** The lookup and field-assembly part of `generateShell`: every asset the
    page shell references is resolved against the graph, and the context
    handed to the template is built from the resolved file names. Rendering
    the template and reading the font files are outside the model; their
    results arrive as `ShellInputs`. */
module Shell {
  import opened Wrappers
  import opened AssetGraph

  /** One entry of the `fonts` array. */
  datatype Font = Font(asset: string, weight: nat, inline: string, inlineRange: string)

  /** What the context takes from outside the graph: the base64 text of the
      two inline font files, the two character ranges the `characterset`
      library prints, the theme colour and the package manifest. */
  datatype ShellInputs = ShellInputs(
    normalInline: string, boldInline: string,
    normalRange: string, boldRange: string,
    nebulaSafeDark: string, pkg: string)

  /** The object passed to the shell template. */
  datatype ShellContext = ShellContext(
    bootstrapFile: string,
    workerFile: string,
    fonts: seq<Font>,
    nebulaSafeDark: string,
    favicon: string,
    dependencygraph: Graph,
    icon: string,
    pkg: string,
    title: string,
    description: string,
    imageUrl: string,
    imageAlt: string,
    imageWidth: string,
    imageHeight: string,
    imageType: string,
    twitterAccount: string,
    url: string,
    locale: string)

  /** The seven lookups, in the order the object literal evaluates them. */
  const ShellLookups: seq<Query> := [
    ChunkFor("bootstrap.tsx"),
    ChunkFor("worker.ts"),
    AssetFor("space-mono-normal.woff2"),
    AssetFor("space-mono-bold.woff2"),
    AssetFor("favicon.png"),
    AssetFor("icon-maskable.png"),
    AssetFor("social-cover.jpg")
  ]

  const SiteOrigin: string := "https://proxx.app/"

  /** The fixed text of the page's title and social-sharing metadata. */
  datatype PageMeta = PageMeta(
    title: string, description: string, imageAlt: string, imageWidth: string,
    imageHeight: string, imageType: string, twitterAccount: string, locale: string)

  const ProxxPage: PageMeta := PageMeta(
    title := "PROXX — a game",
    description := "Help your crew navigate space by marking out the black holes using proxx, your proximity scanner.",
    imageAlt := "Game screen of the PROXX game",
    imageWidth := "1200",
    imageHeight := "675",
    imageType := "image/jpeg",
    twitterAccount := "@chromiumdev",
    locale := "en_US")

  /** `file` is the `fileName` of the entry `find` returns for `q`. */
  ghost predicate ResolvesTo(g: Graph, q: Query, file: string) {
    exists i :: IsFirstMatch(g, q, i) && g[i].fileName == file
  }

  /** No entry of the graph satisfies `q`: the lookup returns `undefined`. */
  ghost predicate Unresolved(g: Graph, q: Query) {
    forall i :: 0 <= i < |g| ==> !Satisfies(g[i], q)
  }

  /** One lookup followed by `.fileName`. Reading a field of `undefined`
      throws, which the model reports as the query that found nothing. */
  function Resolve(g: Graph, q: Query): (r: Result<string, Query>)
    ensures r.Success? ==> ResolvesTo(g, q, r.value)
    ensures r.Failure? <==> Unresolved(g, q)
    ensures r.Failure? ==> r.error == q
  {
    var found := match q
      case ChunkFor(suffix) => FindChunkWithName(g, suffix)
      case AssetFor(name) => FindAssetWithName(g, name);
    assert found == Find(g, q);
    match found
    case None => Failure(q)
    case Some(e) => Success(e.fileName)
  }

  /** The lookups of `qs` evaluated in order, stopping at the first that
      finds nothing: the object literal's fields are evaluated one after the
      other, and the first `undefined.fileName` throws. */
  function ResolveAll(lookup: Query -> Result<string, Query>, qs: seq<Query>): (r: Result<seq<string>, Query>)
    ensures r.Success? ==> |r.value| == |qs|
    ensures r.Success? ==> forall k :: 0 <= k < |qs| ==> lookup(qs[k]).Success? && lookup(qs[k]).value == r.value[k]
    ensures r.Failure? <==> exists k :: 0 <= k < |qs| && lookup(qs[k]).Failure?
    ensures r.Failure? ==> exists k :: 0 <= k < |qs| && lookup(qs[k]).Failure? && lookup(qs[k]).error == r.error
                             && forall j :: 0 <= j < k ==> lookup(qs[j]).Success?
  {
    if |qs| == 0 then Success([])
    else
      match lookup(qs[0])
      case Failure(q) => Failure(q)
      case Success(first) =>
        var tail := ResolveAll(lookup, qs[1..]);
        assert forall k :: 1 <= k < |qs| ==> qs[k] == qs[1..][k - 1];
        match tail
        case Failure(q) => Failure(q)
        case Success(rest) => Success([first] + rest)
  }

  /** The graph lookups in order: on success every file is the one `find`
      returns for its query; the chain fails exactly when some query finds
      nothing, and then it reports the first such query. */
  lemma ResolveAllInGraph(g: Graph, qs: seq<Query>)
    ensures var r := ResolveAll(q => Resolve(g, q), qs);
            && (r.Success? ==> |r.value| == |qs| && forall k :: 0 <= k < |qs| ==> ResolvesTo(g, qs[k], r.value[k]))
            && (r.Failure? <==> exists k :: 0 <= k < |qs| && Unresolved(g, qs[k]))
            && (r.Failure? ==> exists k :: 0 <= k < |qs| && r.error == qs[k] && Unresolved(g, qs[k])
                                 && forall j :: 0 <= j < k ==> !Unresolved(g, qs[j]))
  {
    var lookup := q => Resolve(g, q);
    assert forall k :: 0 <= k < |qs| ==> lookup(qs[k]) == Resolve(g, qs[k]);
  }

  /** `generateShell` up to the template call, for any seven lookups in the
      order of the object literal: the context on success, or the first
      lookup that found nothing, before anything is rendered. */
  function BuildShell(g: Graph, inputs: ShellInputs, lookups: seq<Query>): (r: Result<ShellContext, Query>)
    requires |lookups| == 7
    ensures r.Failure? <==> exists k :: 0 <= k < 7 && Unresolved(g, lookups[k])
    ensures r.Failure? ==> exists k :: 0 <= k < 7 && r.error == lookups[k]
                             && Unresolved(g, lookups[k])
                             && forall j :: 0 <= j < k ==> !Unresolved(g, lookups[j])
    ensures r.Success? ==>
              && ResolvesTo(g, lookups[0], r.value.bootstrapFile)
              && ResolvesTo(g, lookups[1], r.value.workerFile)
              && ResolvesTo(g, lookups[4], r.value.favicon)
              && ResolvesTo(g, lookups[5], r.value.icon)
    ensures r.Success? ==>
              && |r.value.fonts| == 2
              && ResolvesTo(g, lookups[2], r.value.fonts[0].asset)
              && ResolvesTo(g, lookups[3], r.value.fonts[1].asset)
              && r.value.fonts[0].weight == 400 && r.value.fonts[1].weight == 700
              && r.value.fonts[0].inline == inputs.normalInline
              && r.value.fonts[1].inline == inputs.boldInline
    ensures r.Success? ==>
              && |SiteOrigin| <= |r.value.imageUrl|
              && r.value.imageUrl[..|SiteOrigin|] == SiteOrigin
              && ResolvesTo(g, lookups[6], r.value.imageUrl[|SiteOrigin|..])
    ensures r.Success? ==> r.value.dependencygraph == g
  {
    ResolveAllInGraph(g, lookups);
    var files :- ResolveAll(q => Resolve(g, q), lookups);
    Success(ContextFrom(g, inputs, files))
  }

  /** `generateShell`: the shell context built from the seven lookups the
      page needs. It fails exactly when one of them finds nothing, naming
      the first such query; otherwise every file field holds what its lookup
      finds. */
  function GenerateShell(g: Graph, inputs: ShellInputs): (r: Result<ShellContext, Query>)
    ensures r.Failure? <==> exists k :: 0 <= k < |ShellLookups| && Unresolved(g, ShellLookups[k])
    ensures r.Failure? ==> exists k :: 0 <= k < |ShellLookups| && r.error == ShellLookups[k]
                             && Unresolved(g, ShellLookups[k])
                             && forall j :: 0 <= j < k ==> !Unresolved(g, ShellLookups[j])
    ensures r.Success? ==>
              && ResolvesTo(g, ChunkFor("bootstrap.tsx"), r.value.bootstrapFile)
              && ResolvesTo(g, ChunkFor("worker.ts"), r.value.workerFile)
              && ResolvesTo(g, AssetFor("favicon.png"), r.value.favicon)
              && ResolvesTo(g, AssetFor("icon-maskable.png"), r.value.icon)
    ensures r.Success? ==>
              && |r.value.fonts| == 2
              && ResolvesTo(g, AssetFor("space-mono-normal.woff2"), r.value.fonts[0].asset)
              && ResolvesTo(g, AssetFor("space-mono-bold.woff2"), r.value.fonts[1].asset)
              && r.value.fonts[0].weight == 400 && r.value.fonts[1].weight == 700
    ensures r.Success? ==>
              && |SiteOrigin| <= |r.value.imageUrl|
              && r.value.imageUrl[..|SiteOrigin|] == SiteOrigin
              && ResolvesTo(g, AssetFor("social-cover.jpg"), r.value.imageUrl[|SiteOrigin|..])
  {
    BuildShell(g, inputs, ShellLookups)
  }

  /** The object literal, given the seven file names in lookup order. */
  function ContextFrom(g: Graph, inputs: ShellInputs, files: seq<string>): ShellContext
    requires |files| == 7
  {
    ShellContext(
      bootstrapFile := files[0],
      workerFile := files[1],
      fonts := [
        Font(files[2], 400, inputs.normalInline, inputs.normalRange),
        Font(files[3], 700, inputs.boldInline, inputs.boldRange)
      ],
      nebulaSafeDark := inputs.nebulaSafeDark,
      favicon := files[4],
      dependencygraph := g,
      icon := files[5],
      pkg := inputs.pkg,
      title := ProxxPage.title,
      description := ProxxPage.description,
      imageUrl := SiteOrigin + files[6],
      imageAlt := ProxxPage.imageAlt,
      imageWidth := ProxxPage.imageWidth,
      imageHeight := ProxxPage.imageHeight,
      imageType := ProxxPage.imageType,
      twitterAccount := ProxxPage.twitterAccount,
      url := SiteOrigin,
      locale := ProxxPage.locale)
  }
}
