# A model of proxx's static-render step

`lib/render_static.js` runs after the bundler. It turns the bundler's
dependency graph and a page template into a prerendered `index.html`. This
project models the deterministic core of that script:

- **the two graph lookups.** `findChunkWithName` picks the first graph value
  whose module id ends with a given suffix. `findAssetWithName` picks the first
  asset whose file name is a logical name with a `-<hex>` hash spliced in
  before the extension. The part of Node's POSIX `path.parse` that the asset
  lookup reads is modelled too (`PathParse`).
- **the field assembly of `generateShell`.** Seven lookups run in the order
  of the template object's fields. The fonts get weights 400 and 700, the
  page metadata is fixed, and `image_url` is the site origin followed by the
  social-cover file name. Reading `.fileName` of a failed lookup throws. The
  model returns that as a `Failure` carrying the first query that found
  nothing.
- **`correctMarkup`.** It makes three passes of `String.prototype.replace`
  with a global regular expression. Pass 1 turns the local server's origin
  `http://localhost:<port>/` into `./`. Pass 2 deletes script tags that load
  a `./chunk-` file. Pass 3 deletes `<word>.styleInject("…");` calls. One
  generic scanner models the engine's scan (`GlobalReplace`): try the
  expression here; on a match emit the replacement and resume after it,
  otherwise keep one character. Each expression is a matcher over the
  current position (`MarkupPatterns`). Each matcher is proved equal to a
  declarative description of the text it matches.

Modules follow the program: `Wrappers` (Option/Result), `Text` (string
tests, character classes, decimal rendering), `PathParse`, `AssetGraph`,
`Shell`, `MarkupPatterns`, `GlobalReplace`, `Markup` and `Splicing`. The
last one holds what the single left-to-right scans leave behind.

What the code does, stated directly:

- `generateShell` performs seven lookups: two chunks and five assets. The
  assets are the two fonts, the favicon, the maskable icon and the social
  cover.
- The chunk lookup never reads `isAsset`. An asset entry whose module id
  matches is returned like a chunk.
- Nothing rejects a graph in which two assets answer the same logical name.
  The asset lookup returns the first one in iteration order.
- Pass 1 is idempotent and leaves no local origin behind
  (`Markup.AbsoluteToRelative`, `Markup.AbsoluteToRelativeIdempotent`).
- Passes 2 and 3 are not idempotent. Deleting a tag (or call) can splice the
  text around it into a new one, which a second pass would delete
  (`Splicing.ChunkScriptPassNotIdempotent`,
  `Splicing.StyleInjectPassNotIdempotent`). A pass leaves the markup alone
  exactly when no tag (or call) is in it (`Markup.RemoveChunkScripts`,
  `Markup.RemoveStyleInjects`).
- `correctMarkup` as a whole can leave a local origin behind. A chunk tag
  placed inside an origin hides it from pass 1, and pass 2 then joins the
  two halves (`Splicing.CorrectMarkupCanLeaveOrigin`).
- Pass 3 deletes a whole `styleInject` call, including any `./` reference
  pass 1 produced inside its quoted argument.

## Model

| member | source | states |
|---|---|---|
| PathParse.Parse | lib/render_static.js:16-20 | `name + ext` is the last path segment after trailing slashes are dropped. `ext` is empty exactly when the segment has no dot after its first character, or is `..` somewhere other than directly under the root. Otherwise `ext` starts with its only dot and `name` is non-empty. |
| PathParse.ParseComposed | lib/render_static.js:16-20 | Parsing a slash-free `name + ext` (with `ext` empty, or a single-dot extension) gives back exactly that name and that extension. |
| PathParse.ParseIgnoresDirectory | lib/render_static.js:20 | A directory prefix does not change how a file name parses, except that `..` directly under the root splits at its last dot. |
| PathParse.RootParentSplitsAtDot | lib/render_static.js:16-20 | `..` directly under the root (`/..`, `/../`) parses as name `.` with extension `.`, as Node's POSIX `path.parse` does, while `..` alone or under any non-empty directory keeps the whole segment as the name. |
| AssetGraph.Find | lib/render_static.js:10-12 | `find` returns the entry at the first position satisfying the test. It returns nothing exactly when no entry satisfies it. |
| AssetGraph.FindChunkWithName | lib/render_static.js:9-13 | The found entry's module id (a missing id reads as `""`) ends with the name. No earlier entry's id does. Nothing is found exactly when no id ends with the name. |
| AssetGraph.ChunkLookupIgnoresAssetTag | lib/render_static.js:10-12 | Changing any entry's `isAsset` tag changes neither whether the chunk lookup succeeds nor the file name it returns. |
| AssetGraph.FirstFromAgrees | lib/render_static.js:10 | The search stops at the same position in two sequences on which the test agrees element by element. |
| AssetGraph.FindAssetWithName | lib/render_static.js:15-26 | A found entry is an asset with the logical name's extension, and its parsed name is the logical name, `-`, and lower-case hex. No earlier entry passes the test. Nothing is found exactly when no entry passes. |
| AssetGraph.HashSuffixIsHashedName | lib/render_static.js:22-24 | The prefix test, then the `^-[0-9a-f]+$` test on the rest, accepts exactly the names of the form base + `-` + hex. |
| AssetGraph.AssetMatchIsHashedName | lib/render_static.js:19-24 | An entry passes the asset test iff it is an asset, its extension equals the logical name's, and its name is the logical name plus `-<hex>`. |
| AssetGraph.HashedFileIsFound | lib/render_static.js:15-26 | An asset named `<base>-<hex><ext>` passes the test for `<base><ext>`, so the lookup for that logical name succeeds. |
| AssetGraph.AssetRejections | lib/render_static.js:22-24 | The test refuses a name equal to the logical name, the logical name plus a bare `-`, and any name with a non-`[0-9a-f]` character after the hyphen (an upper-case hash, `icon-maskable` under `icon`). |
| Shell.Resolve | lib/render_static.js:42-43 | A successful lookup yields the file name of the first matching entry. The lookup fails exactly when no entry matches, and the failure names the query. |
| Shell.ResolveAll | lib/render_static.js:41-84 | On success there is one file per query, each the lookup's value. The chain fails iff some lookup fails. The failure reported is that of a failing query with every earlier query succeeding. |
| Shell.ResolveAllInGraph | lib/render_static.js:41-84 | The same chain over the graph: on success each file is what `find` returns. Failure occurs exactly when some query matches nothing, and it names the first such query. |
| Shell.BuildShell | lib/render_static.js:34-85 | The shell fails iff one of the seven lookups finds nothing, and it reports the first such lookup. On success, each of bootstrap, worker, both font assets, favicon and icon is its lookup's result. The weights are 400 and 700 with the given inline payloads. `image_url` is `https://proxx.app/` followed by the social-cover file. The graph is passed through. |
| Shell.GenerateShell | lib/render_static.js:34-85 | `generateShell` fails exactly when one of its seven lookups finds nothing, and it reports the first such lookup. On success, `bootstrap.tsx` and `worker.ts` resolve to the two script fields. `favicon.png`, `icon-maskable.png` and the two `space-mono` fonts resolve to their fields, with the fonts at weights 400 and 700. `image_url` is `https://proxx.app/` followed by the file `social-cover.jpg` resolves to. |
| Text.DecimalRoundTrip | lib/render_static.js:114 | Reading back the port's decimal rendering gives the port, so the origin text determines the port. |
| MarkupPatterns.ChunkScriptMatchIff | lib/render_static.js:116-119 | The chunk-script matcher matches `n` characters iff they form `<script src="./chunk-X"Y></script>` with X non-empty and free of `"`, and Y non-empty and free of `>`. |
| MarkupPatterns.StyleInjectMatchIff | lib/render_static.js:121 | The style-inject matcher matches `n` characters iff they form a word, `.styleInject(`, a quote, a body without line terminators in which the closer does not occur, and the same quote followed by `);`. |
| GlobalReplace.Replace | lib/render_static.js:114-121 | A global replace never lengthens the text: it returns its input or a strictly shorter text, because every match is longer than its replacement. |
| GlobalReplace.Tokenize | lib/render_static.js:114-121 | A scan splits the text into kept characters and cuts that spell the text again. A character is kept exactly where no match starts, and each cut is the match found where it starts. |
| GlobalReplace.ReplaceIsScanOutput | lib/render_static.js:114-121 | The replace output is the scan with every cut replaced by the replacement string. |
| GlobalReplace.ScanIsUnique | lib/render_static.js:114-121 | Two scans of the same text by the same expression are the same. |
| GlobalReplace.ReplaceSplice | lib/render_static.js:114-121 | A match found after a prefix where no match starts is replaced, the prefix is kept, and scanning resumes after the match. |
| GlobalReplace.ReplaceUnchangedIff | lib/render_static.js:114-121 | A pass returns its input unchanged exactly when no match starts anywhere in it. |
| Markup.AbsoluteToRelative | lib/render_static.js:114 | Pass 1's output holds no local origin. It equals the markup exactly when the markup holds none, and otherwise it is shorter. |
| Markup.AbsoluteToRelativeIdempotent | lib/render_static.js:114 | Running pass 1 twice gives what one run gives. |
| Markup.LocalhostUrlRewritten | lib/render_static.js:114 | An origin after a prefix containing no origin becomes `./`, with the prefix kept and the rest rewritten on its own. |
| Markup.LocalAddressBecomesRelative | lib/render_static.js:114 | An address on the local server becomes `./` followed by its unchanged path. |
| Markup.PrerenderUrlBecomesRelative | lib/render_static.js:129-131 | The prerender address the page is opened at becomes `./?prerender`. |
| Markup.ChunkNoMatchIff | lib/render_static.js:116-119 | Pass 2 matches at a position exactly when a chunk-loader tag starts there. |
| Markup.StyleInjectNoMatchIff | lib/render_static.js:121 | Pass 3 matches at a position exactly when a `styleInject` call starts there. |
| Markup.NoChunkScriptTagIff | lib/render_static.js:116-119 | No substring is a chunk-loader tag exactly when pass 2 matches nowhere. |
| Markup.NoStyleInjectCallIff | lib/render_static.js:121 | No substring is a `styleInject` call exactly when pass 3 matches nowhere. |
| Markup.RemoveChunkScripts | lib/render_static.js:116-119 | Pass 2 leaves the markup unchanged exactly when it holds no chunk-loader tag. Otherwise the output is shorter. |
| Markup.RemoveStyleInjects | lib/render_static.js:121 | Pass 3 leaves the markup unchanged exactly when it holds no `styleInject` call. Otherwise the output is shorter. |
| Markup.ChunkScriptTagRemoved | lib/render_static.js:116-119 | A chunk-loader tag preceded by text in which no tag starts is deleted. The preceding text is kept, and scanning goes on after the tag. |
| Markup.StyleInjectCallRemoved | lib/render_static.js:121 | A `styleInject` call preceded by text in which no call starts is deleted. The preceding text is kept, and scanning goes on after the call. |
| Markup.CorrectMarkup | lib/render_static.js:112-123 | `correctMarkup` returns its input exactly when the input holds no local origin, no chunk-loader tag and no `styleInject` call. Otherwise the output is shorter. |
| Markup.ChunkTagFromParts | lib/render_static.js:117 | `./chunk-X"Y></script>` inside a script tag, with X non-empty and free of `"` and Y non-empty and free of `>`, is a chunk-loader tag. |
| Markup.LoneChunkTagRemoved | lib/render_static.js:116-119 | A markup that is one chunk-loader tag becomes empty. |
| Markup.LocalChunkTagRewritten | lib/render_static.js:114-119 | Pass 1 turns a markup that is one chunk tag whose `src` is absolute on the local server, with no origin in the rest of the tag, into the relative form pass 2 looks for. |
| Markup.LocalChunkTagRemoved | lib/render_static.js:112-123 | A markup that is one chunk-loader tag whose `src` is absolute on the local server, with no origin in the rest of the tag, becomes empty. |
| Splicing.DotlessIsInert | lib/render_static.js:121 | Markup without a `.` is left alone by pass 3. |
| Splicing.LoneStyleInjectRemoved | lib/render_static.js:121 | A markup that is one `styleInject` call becomes empty. |
| Splicing.ChunkScriptPassNotIdempotent | lib/render_static.js:116-119 | Deleting one tag can join a `<` before it with the tail after it into a new tag, so a second pass 2 deletes more. |
| Splicing.StyleInjectPassNotIdempotent | lib/render_static.js:121 | Deleting one call can join the word before it with the text after it into a new call, so a second pass 3 deletes more. |
| Splicing.CorrectMarkupCanLeaveOrigin | lib/render_static.js:112-123 | Markup holding no local origin (the origin's `h`, a chunk tag, the rest of the origin) is corrected into exactly the local origin. |

## Left out

- Rendering the EJS template and writing files (`renderEjsFile`, lines 28-32) are I/O through a library outside the model. `generateShell` stops at the context it would hand to the template.
- The font files read as base64, the `characterset` hex ranges, the theme colour and `package.json` (lines 35-39, 49-52, 58-61, 64, 69) come from files and libraries. They arrive as the opaque strings of `ShellInputs`.
- The `fs` module passed into the template (line 70) has no counterpart in the context datatype.
- `startServer` (lines 87-92) binds an HTTP server and is I/O. The port it yields is a parameter of `correctMarkup`.
- `grabMarkup` (lines 94-110) drives a headless browser. Its result is the markup `correctMarkup` receives, so that markup is a parameter. The `<!doctype html>` it prepends contains none of the three patterns and so is not modelled separately.
- `run` (lines 125-139) is orchestration over I/O: reading the graph, writing `dist/index.html`, closing the server, and rendering `_headers`.
- `Object.values` iteration order is taken as given. The graph is the sequence of its values.
- PathParse.Parse: models POSIX `path.parse` for the `name` and `ext` fields only. Windows separators and the `root`/`dir` fields are not modelled. A path made only of slashes gets an empty name and extension, as in Node, and `/..` gets name `.` and extension `.`, as in Node.
- Strings are sequences of Unicode scalar values, while JavaScript strings are UTF-16 code units, so a lone surrogate in captured markup cannot be represented. None of the three expressions distinguishes surrogate halves, so matching is unaffected.
- Shell.BuildShell: it is stated for any seven queries rather than for the seven literal file names. `GenerateShell` applies it to those names, and the fixed metadata strings are one constant record whose text no contract restates.
- Pass 1's expression is built from text that holds no regular-expression metacharacters for a decimal port, so it is modelled as a literal search.
- The `u` and `s` flags are absent from all three expressions. `\w` is therefore ASCII and `.` refuses the four line terminators, and the model uses exactly those classes.
