# Image inliner and build-configuration rules, in Dafny

This project models the two pieces of logic in the repository.

- **The image inliner** (`convert-images.js`). It lists the `images`
  directory and keeps the `.jpg`/`.jpeg` names, compared in lower case,
  sorted. For each file it compresses the image with sharp or jimp, or uses
  the original bytes when neither library loaded or the library threw. It
  stores `data:image/jpeg;base64,<Base64 of the bytes>` under the file's
  stem. A file whose bytes are empty, or that raises an error, is skipped.
  It then splices a `<script>` block holding the serialised mapping into
  `index.html`. The block goes over the first block the marker pattern
  matches, else in front of the first `</head>`, else the script exits
  without writing.
- **The three decision functions of `vite.config.js`**:
  - `getBase`: `GITHUB_REPOSITORY`, then `VITE_BASE`, then `/`;
  - `manualChunks`: `three`, then `mediapipe`, then `vendor`, else none;
  - `onwarn`: drops source-map warnings and passes the others on unchanged.

Modules, one per concern:

| module | file | models |
|---|---|---|
| `Wrappers` | wrappers.dfy | `Option` and `Result` |
| `Text` | text.dfy | `indexOf`, `includes`, `endsWith` on strings |
| `Base64` | base64.dfy | `Buffer.toString('base64')`: section 4 of RFC 4648, with a strict decoder as its inverse |
| `ImageFiles` | image_files.dfy | the filter and sort of the listing, and `path.parse(file).name` |
| `Compression` | compression.dfy | the codec library probe and `compressImage` |
| `HtmlSplice` | html_splice.dfy | the marker regular expression, `replace`, and the insert before `</head>` |
| `Inliner` | inliner.dfy | the data URI, the body of the `for` loop, the `imagesData` fold, and `convertImages` |
| `ViteConfig` | vite_config.dfy | `getBase`, `manualChunks`, `onwarn` |

How the imperative parts are modelled:

- The `for` loop of `convertImages` is the method `Inliner.BuildMapping`. It
  updates the map variable `imagesData` and carries the invariant
  `imagesData == Fold(Results(env, files)[..i])`. `compressImage` is the
  method `Compression.CompressImage`, which is proved equal to the function
  `Compress`. The properties of the mapping are lemmas about `Fold`.
- The outside world is passed in as parameters:
  - the directory listing (`listing`), `None` when `readdirSync` throws;
  - the image files and their bytes (`Env.disk`);
  - the library found at start-up (`Env.backend`), which is what
    `ProbeBackend` gives for the two load attempts;
  - what the library does with each file (`Env.codec`);
  - the result of reading `index.html`;
  - the serialiser `JSON.stringify(imagesData, null, 2)` (`serialize`).

The key is `path.parse(file).name`. This removes only the
last extension, so `a.b.jpg` gives `a.b`. A name that is only an extension,
such as `.jpg`, keeps the whole name as its key.

## Model

| member | source | states |
|---|---|---|
| Text.Find | convert-images.js:131-132 | a position found is at or after the start position and leaves room for the pattern |
| Text.FindSpec | convert-images.js:131-132 | `Find` returns an occurrence, none lies between the start and it, and it returns none only when the pattern does not occur at or after the start |
| Text.FindIs | convert-images.js:131-132 | conversely, the first occurrence at or after the start is what `Find` returns |
| Text.ContainsIff | convert-images.js:131 | `includes` holds exactly when the substring occurs at some position |
| Text.Contains | convert-images.js:131 | the definition of `includes` that `ContainsIff` and `ContainsTransitive` are about |
| Text.ContainsTransitive | vite.config.js:56-63 | a string that contains a string that contains `small` contains `small` |
| Base64.CharOf | convert-images.js:100 | no 6-bit value is written as the padding character |
| Base64.ValueOf | convert-images.js:100 | a character the decoder accepts is the one the encoder writes for its value |
| Base64.Encode | convert-images.js:100 | the encoding of n bytes has 4 * ceil(n / 3) characters |
| Base64.DecodeEncode | convert-images.js:100 | decoding the Base64 of any bytes gives those bytes back |
| Base64.EncodeDecode | convert-images.js:100 | every string the strict decoder accepts is the Base64 of what it decodes to, so the encoding is canonical |
| ImageFiles.ToLowerIdempotent | convert-images.js:70 | lower-casing a lower-cased name changes nothing |
| ImageFiles.IsJpegNameLower | convert-images.js:70 | the `.jpg`/`.jpeg` test gives the same answer for a name and its lower-cased form, so the case of the extension does not matter |
| ImageFiles.IsJpegName | convert-images.js:70 | the definition of the filter's test that `Filter`, `SelectImages`, `StemOfJpegName` and `IsJpegNameLower` are about |
| ImageFiles.Filter | convert-images.js:70 | the filter keeps only `.jpg`/`.jpeg` names, each matching name as often as it is listed |
| ImageFiles.Below | convert-images.js:71 | the definition of the default `sort` comparison that `BelowTotal`, `BelowAntisymmetric`, `BelowTransitive`, `Insert` and `Sort` are about |
| ImageFiles.BelowTotal | convert-images.js:71 | the default `sort` order compares any two names |
| ImageFiles.BelowAntisymmetric | convert-images.js:71 | two names that each sort no later than the other are equal |
| ImageFiles.BelowTransitive | convert-images.js:71 | the default `sort` order is transitive |
| ImageFiles.Insert | convert-images.js:71 | inserting into a sorted list keeps it sorted and adds exactly the one name |
| ImageFiles.Sort | convert-images.js:71 | `sort` gives a sorted permutation of its input |
| ImageFiles.SortedUnique | convert-images.js:71 | there is only one sorted permutation, so the processing order is determined by the listing's contents |
| ImageFiles.SelectImages | convert-images.js:69-71 | the selected list is sorted and holds exactly the listed names whose lower-cased form ends in `.jpg` or `.jpeg`, each as often as listed |
| ImageFiles.SelectImagesDistinct | convert-images.js:69-71 | a listing without repeats gives a selection without repeats, so each file is processed once |
| ImageFiles.LastDot | convert-images.js:101 | the position found holds the last '.' of the name, and none means there is no '.' |
| ImageFiles.Stem | convert-images.js:101 | `path.parse(file).name` is a prefix of the name, cut at its last '.' unless that dot is at the start or the name is ".." |
| ImageFiles.StemOfJpegName | convert-images.js:101 | the key of a selected file is its name less the matched `.jpg`/`.jpeg`, as in `a.b.jpg` giving `a.b`, unless nothing would remain |
| Compression.ProbeBackend | convert-images.js:11-22 | the library is sharp when sharp loads, else jimp when jimp loads, else none |
| Compression.Compress | convert-images.js:25-66 | the definition of the bytes `compressImage` yields that `CompressImage`, `CompressFallsBack`, `CompressSource` and `CompressFails` are about |
| Compression.CompressImage | convert-images.js:25-66 | the try/fallback of `compressImage` gives the bytes `Compress` defines |
| Compression.CompressFallsBack | convert-images.js:25-66 | with no library, or a library that throws, the original bytes are used |
| Compression.CompressSource | convert-images.js:25-66 | the result is the original file or the library's own output, and it is the library's output only when there is a library that returned |
| Compression.CompressFails | convert-images.js:59-65 | compression yields nothing only when the fallback read of the original file fails too |
| Inliner.DataUri | convert-images.js:100-102 | a stored value has the length of the prefix plus 4 * ceil(n / 3) characters for n bytes |
| Inliner.ParseDataUriOfDataUri | convert-images.js:100-102 | decoding what follows the prefix of a stored value recovers the bytes exactly |
| Inliner.DataUriOfParseDataUri | convert-images.js:100-102 | every string that parses as such a value is the stored value of what it parses to |
| Inliner.FinalBytes | convert-images.js:83-89 | the definition of the bytes a file ends up with, or none when it cannot be read, that `ProcessFileSpec` and `MappingDecodes` are about |
| Inliner.ProcessFileSpec | convert-images.js:82-107 | a file that cannot be read is an error, empty final bytes are a skip, and otherwise it is an entry under its stem whose value decodes to its final bytes |
| Inliner.ProcessFile | convert-images.js:82-107 | the definition of one iteration of the loop body that `ProcessFileSpec` and `MappingDecodes` are about |
| Inliner.ResultsAppend | convert-images.js:78-79 | the outcomes of a list of files are the outcomes of any split of it, one after the other, so each file's outcome does not depend on the files around it |
| Inliner.Assign | convert-images.js:102 | the definition of the property assignment `imagesData[key] = value` that `FoldKeys`, `FoldLastWins` and `FoldValue` are about |
| Inliner.Fold | convert-images.js:78-108 | the definition of `imagesData` after the loop body has run over a list of outcomes, that `AddedKeysSnoc`, `FoldKeys`, `FoldLastWins`, `FoldValue` and `FoldSkips` are about |
| Inliner.Mapping | convert-images.js:78-108 | the definition of `imagesData` after the loop that `ConvertImages`, `MappingDecodes` and `RerunWritesSame` are about |
| Inliner.AddedKeysSnoc | convert-images.js:102 | one more file adds its key to the set of entry keys exactly when it produces an entry |
| Inliner.FoldKeys | convert-images.js:101-111 | the keys of `imagesData` are exactly the stems of the files that produced an entry. "__proto__" is the exception, because assigning a string to it does not store. So the reported count is the number of distinct such stems |
| Inliner.FoldLastWins | convert-images.js:101-102 | among the files with one stem, the last one in sorted order to produce an entry decides the value |
| Inliner.FoldValue | convert-images.js:102 | every value of `imagesData` is the entry of some file under that key |
| Inliner.FoldSkips | convert-images.js:95-107 | a file with empty bytes, or one whose processing fails, leaves `imagesData` as if it were not listed, and the loop goes on |
| Inliner.MappingDecodes | convert-images.js:100-102 | every value decodes to the non-empty final bytes of a file whose stem is its key |
| Inliner.BuildMapping | convert-images.js:73-108 | the `for` loop visits the selected files in order, one outcome each, and leaves `imagesData` equal to the fold of those outcomes |
| Inliner.Publish | convert-images.js:116-140 | the run exits without writing exactly when `index.html` cannot be read, or has neither a marker block nor `</head>` |
| Inliner.ConvertImages | convert-images.js:69-149 | the run builds the mapping of the selected files and writes what splicing its serialisation into `index.html` gives; when the directory cannot be listed it ends without writing |
| Inliner.RerunWritesSame | convert-images.js:116-140 | running again over the written file with the same images writes the same file |
| HtmlSplice.ScriptBlock | convert-images.js:119-122 | the definition of the generated block that `BlockMatch`, `ScriptBlockSelfMatching`, `SpliceTwice` and `SpliceIdempotent` are about |
| HtmlSplice.IsSpace | convert-images.js:125 | the definition of `\s` that `SkipSpacesSpec` and `SkipSpacesIs` are about |
| HtmlSplice.SkipSpaces | convert-images.js:125 | `\s*` stops within the text |
| HtmlSplice.SkipSpacesSpec | convert-images.js:125 | `\s*` consumes only white space and stops at the first other character |
| HtmlSplice.SkipSpacesIs | convert-images.js:125 | a maximal run of white space is exactly what `\s*` consumes |
| HtmlSplice.HeaderEnd | convert-images.js:125 | the header `<script>\s*//\s*` plus the marker spans at least its literal characters |
| HtmlSplice.HeaderEndParts | convert-images.js:125 | a header found at `p` is `<script>`, `//` and the marker text at the positions left by the two `\s*` |
| HtmlSplice.HeaderEndIs | convert-images.js:125 | conversely, those three parts in place make a header |
| HtmlSplice.HeaderInterior | convert-images.js:125 | a header has no '<' after its first character |
| HtmlSplice.HeaderLocal | convert-images.js:125 | whether a header is found depends only on the characters it spans |
| HtmlSplice.MatchAt | convert-images.js:125 | a match ends after the header's end plus a `</script>` |
| HtmlSplice.MatchAtSpec | convert-images.js:125 | the lazy `.*?` ends the match at the first `</script>` after the header, and there is no match when none follows |
| HtmlSplice.FirstMatch | convert-images.js:125-127 | the leftmost match lies within the text and is not empty |
| HtmlSplice.FirstMatchSpec | convert-images.js:125-127 | the leftmost match is a match, no match starts before it, and none is reported only when no position matches |
| HtmlSplice.FirstMatchFrom | convert-images.js:125-127 | a match with no match before it is the leftmost one |
| HtmlSplice.SpliceBlock | convert-images.js:125-138 | the splice fails exactly when there is neither a match nor a `</head>` |
| HtmlSplice.Splice | convert-images.js:119-138 | the same for the generated script block |
| HtmlSplice.SpliceReplaces | convert-images.js:126-127 | with a match, only the first matching block is replaced, and the text before and after it is kept |
| HtmlSplice.SpliceInserts | convert-images.js:131-132 | without a match, the block and a line break go immediately in front of the first `</head>` |
| HtmlSplice.BlockMatch | convert-images.js:119-127 | wherever the generated block is placed, the pattern matches it exactly, when the serialised mapping has no `</script>` |
| HtmlSplice.ScriptBlockSelfMatching | convert-images.js:119-127 | the generated block starts with '<' and the pattern matches exactly it in any surroundings, when the serialised mapping has no `</script>` |
| HtmlSplice.LeftmostNoHeaderWithin | convert-images.js:125-127 | every header that starts before the leftmost match runs past the match's start |
| HtmlSplice.HeadersBeforeLt | convert-images.js:125 | text that agrees with a page up to a '<' has no header there when the page has none wholly inside that stretch |
| HtmlSplice.BlockFirst | convert-images.js:125-127 | the generated block, put after text with no whole header in it, is the leftmost match |
| HtmlSplice.ReplacedFirst | convert-images.js:125-127 | after a replacement, the new block is the leftmost match of the output |
| HtmlSplice.InsertedFirst | convert-images.js:125-132 | after an insertion in front of `</head>`, the new block is the leftmost match of the output |
| HtmlSplice.TwiceReplaced | convert-images.js:125-127 | splicing over a replaced block puts the new block where the old page had its match |
| HtmlSplice.TwiceInserted | convert-images.js:125-132 | splicing over an inserted block puts the new block in front of the old page's `</head>` |
| HtmlSplice.SpliceBlockTwice | convert-images.js:125-138 | splicing twice gives what splicing the second block once gives |
| HtmlSplice.SpliceTwice | convert-images.js:119-138 | a second run replaces the block of the first run and does not add a second block |
| HtmlSplice.SpliceIdempotent | convert-images.js:119-138 | a second run with the same mapping leaves the page as the first run wrote it |
| HtmlSplice.NoClosingTagInHeader | convert-images.js:125-132 | no `</script>` or `</head>` starts inside a marker header |
| HtmlSplice.MatchOverHeader | convert-images.js:125 | a marker header followed directly by a second one matches up to the first `</script>` after the second |
| HtmlSplice.DanglingFirstRun | convert-images.js:125-132 | on a page made of a marker header and `</head>`, which has a dangling header, the first run inserts the block between the two |
| HtmlSplice.DanglingSecondRun | convert-images.js:125-127 | on that output the second run matches from the dangling header to the inserted `</script>`, and so deletes the header, when the serialised mapping has no `</script>` |
| HtmlSplice.DanglingHeaderRerun | convert-images.js:119-138 | so with a dangling header a second run with the same mapping writes a different, shorter page than the first run, when the serialised mapping has no `</script>` |
| ViteConfig.Split | vite.config.js:11 | `split('/')` gives at least one piece |
| ViteConfig.SplitJoin | vite.config.js:11 | no piece contains the separator, and joining the pieces gives the string back |
| ViteConfig.SplitFirst | vite.config.js:11 | a first piece without the separator is split off whole |
| ViteConfig.SplitNone | vite.config.js:11 | a string without the separator is a single piece |
| ViteConfig.Truthy | vite.config.js:10-15 | the definition of the test on an environment variable, where the empty string is false, that `GetBaseFallback` and `GetBaseShape` are about |
| ViteConfig.Show | vite.config.js:11-12 | the definition of how `${repoName}` prints a missing piece as `undefined`, that `GetBaseRepositoryFirst` is about |
| ViteConfig.GetBase | vite.config.js:8-20 | the definition of the base path that `GetBaseRepository`, `GetBaseRepositoryFirst`, `GetBaseFallback` and `GetBaseShape` are about |
| ViteConfig.GetBaseRepository | vite.config.js:10-12 | for `owner/name` the base is `/name/`, whatever `VITE_BASE` is |
| ViteConfig.GetBaseRepositoryFirst | vite.config.js:10-17 | a non-empty `GITHUB_REPOSITORY` decides alone, and one without a slash gives `/undefined/` |
| ViteConfig.GetBaseFallback | vite.config.js:14-19 | without `GITHUB_REPOSITORY`, a non-empty `VITE_BASE` is returned verbatim, else `/` |
| ViteConfig.GetBaseShape | vite.config.js:8-20 | the base starts with '/' unless it is a `VITE_BASE` given without one; from the repository it also ends with '/' |
| ViteConfig.ManualChunks | vite.config.js:55-65 | the definition of the chunk choice that `ManualChunksSpec` and `ManualChunksNone` are about |
| ViteConfig.ManualChunksSpec | vite.config.js:55-64 | `three` exactly for ids containing `node_modules/three`; `mediapipe` for `node_modules/@mediapipe` without it; `vendor` for other ids inside `node_modules` |
| ViteConfig.ManualChunksNone | vite.config.js:55-65 | an id gets no chunk exactly when it does not contain `node_modules` |
| ViteConfig.MentionsSourceMap | vite.config.js:69 | the definition of `warning.message?.includes('source map')` that `OnWarnSpec` is about |
| ViteConfig.OnWarn | vite.config.js:67-73 | the definition of the warning filter that `OnWarnSpec` and `OnWarnNoMessage` are about |
| ViteConfig.OnWarnSpec | vite.config.js:67-73 | a warning is dropped exactly when its code is `SOURCEMAP_ERROR` or its message contains "source map"; any other one is passed on unchanged |
| ViteConfig.OnWarnNoMessage | vite.config.js:69-72 | a warning without a message is dropped only for its code |

## Left out

- File system access is not modelled; its results are parameters:
  - `readdirSync` of the images directory is the listing;
  - `statSync` and `readFileSync` of a file are membership in `Env.disk` and the bytes stored there;
  - `readFileSync` of `index.html` is an `Option<string>`.
- `writeFileSync` of `index.html` is the `Written` outcome. A failing write is not modelled.
- A file that disappears between `statSync` and `readFileSync` is not modelled.
  - `Compress` still has a `None` result for a failed read, but `FinalBytes` only asks for it on files that exist.
- The sharp and jimp pipelines are foreign codecs, so they are left out:
  - the resize to 1920 pixels wide;
  - mozjpeg;
  - the JPEG quality of 85.
  - Their effect on one file is the `Env.codec` outcome: bytes, or an exception.
- Console output is left out: progress lines, sizes in KB and compression percentages are diagnostics that use floating point.
- `async`/`await` is left out. The run is sequential, so `await` only sequences the steps.
- `process.exit(1)` is the `Exited` outcome. So is the uncaught exception of a `readdirSync` that throws at module load: either way the process ends without writing.
- `JSON.stringify(imagesData, null, 2)` is the parameter `serialize`. Its layout and the order of the keys are not modelled.
  - `serialize` receives only the final map. `JSON.stringify` lists keys in the order they were first assigned, and two runs can reach the same map by different orders. For example, with the files `a.jpeg`, `a.jpf.jpg` and `a.jpg`, the key `a` comes first unless `a.jpeg` is empty. So the model does not capture that the written text also depends on that order.
- SpliceTwice, SpliceIdempotent, RerunWritesSame: these assume the serialised mapping contains no `</script>`.
- String replacement patterns are left out.
  - `String.prototype.replace` interprets `$&`, `$1` and similar in the replacement text.
  - The model inserts the text literally. That is what happens whenever the keys, and so the serialised mapping, contain no `$`.
- The regular expression is modelled by what it recognises:
  - a header made of `<script>`, `\s*`, `//`, `\s*` and the marker text;
  - then the shortest stretch up to the first `</script>`, which is the `s` flag with a lazy `.*?`;
  - and the leftmost position where that succeeds.
  - `\s` is JavaScript's white-space class. Backtracking into `\s*` cannot change the result, because `/` and the marker's first character are not white space.
- SpliceBlockTwice, SpliceTwice, SpliceIdempotent, RerunWritesSame: these hold only when the page has no dangling header (`NoDanglingHeader`).
  - A dangling header is a marker header before the first `</head>` that no `</script>` closes.
  - Such a header is harmless on the first run, which inserts in front of `</head>`.
  - On a later run, the pattern matches from that header to the inserted block's `</script>` and replaces the whole stretch. `DanglingHeaderRerun` proves this for the page made of a marker header and `</head>`.
- ImageFiles.ToLower: lowers only the ASCII letters. JavaScript's `toLowerCase` applies full Unicode case mapping, which is left out. The extensions compared against are ASCII.
- ImageFiles.Sort: orders names by Dafny characters, that is by code point, while `sort` compares UTF-16 code units. The two orders agree on names without characters outside the Basic Multilingual Plane.
- ImageFiles.Stem: treats the listing's names as plain file names without directory separators. That is what `readdirSync` returns.
- The declarative parts of `vite.config.js` are left out, because they have no logic of their own:
  - plugins;
  - server port and headers;
  - alias;
  - output file name templates;
  - `optimizeDeps`.
- ViteConfig.OnWarn: reads only `code` and `message`. Any other fields of a warning are passed on inside `Forward` as the same value.
