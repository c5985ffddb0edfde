# Markdown export with embedded images, modelled in Dafny

The Obsidian plugin "md-export-with-image" copies the active Markdown note
to the clipboard after making it self-contained. The command
`convertAndCopyToClipboard` runs three scans over the note's text:

1. Every PlantUML fence (```` ```puml ````, ```` ```plantuml ````,
   ```` ```puml-svg ````) becomes `![](url)`. The URL is the PNG of the
   diagram, from a PlantUML server or from a local PlantUML process with a
   cache.
2. Every wiki embed `![[name.png]]` becomes
   `![desc](data:image/png;base64,…)`, with the image file's bytes inlined.
3. Every standard image link `![alt](path.png)` is rewritten the same way.

Each scan is a `while (regex.exec(content))` loop. The loop reassigns
`content` with `String.prototype.replace(string, string)`, which replaces
only the first occurrence of the matched text. The regex's `lastIndex`
carries over to the rewritten text.

The plugin also has:

- an older copy of the command (`main.ts`) with only the two image passes,
  which always keeps the descriptions;
- a checker that reports lines whose `**bold**` spans touch a character
  other than whitespace, `*` or the listed CJK punctuation;
- the string helpers of the Excalidraw copy.

The modules, one per part of the plugin:

| module | file | what it holds |
|---|---|---|
| `Wrappers`, `Outcome` | wrappers.dfy, outcome.dfy | `Option`, `Result`, the failures, and a promise's fate `Completion` |
| `JsString` | jsstring.dfy | `indexOf`, and `replace(string, string)` with its `$` replacement patterns |
| `Base64` | base64.dfy | `Buffer.toString('base64')`, following section 4 of RFC 4648, with a decoder as its partner |
| `Uri` | uri.dfy | `decodeURIComponent` with UTF-8 validation, and `encodeURIComponent` as its partner |
| `Recognizers` | recognizers.dfy | the four regular expressions as hand-written recognisers; the `GlobalRegex` class holds the `lastIndex` state |
| `Settings`, `ServerProcessor`, `LocalProcessor` | settings.dfy, server.dfy, local.dfy | processor selection, the server URL, the local command line, the exit-code rule, and the cache class |
| `Export`, `Legacy` | export.dfy, legacy.dfy | the current and the older export command: scan functions, their loop methods and the splice lemmas |
| `CheckMarkdown` | checkmarkdown.dfy | `checkMarkdownFormatIssuesForBold` |
| `ExcalidrawHelper` | helper.dfy | `escapeRegExp`, the path split, vault-path normalisation, and the mime types |

Every loop of the source is a method whose `ensures` ties its result, and
the new cache, to a scan function. The lemmas about that function state
what the source promises.

The environment is passed in as values:

- the vault (`getFirstLinkpathDest`, `getFullPath`, `readFileSync`);
- the PlantUML encoder;
- the operating system (`homedir`, `path.isAbsolute`, `path.resolve`);
- the child process, as the events a run produces.

A JavaScript exception is a `Failure`. A promise that never settles is
`Pending`.

The scans can loop forever in JavaScript. For example, a URL or a file
name can contain a new match behind the cursor. So every scan carries a
`fuel` bound, and running out of it is `Exhausted`. The `*Fuel` lemmas show
that more fuel never changes a result that finished.

Behaviours of the code worth noting:

- The alternative text of a standard link is copied as written. Only the
  path is percent-decoded (src/main.ts:197-199, 217).
- The data URI always says `image/png`, also for `.jpg` and `.jpeg` files
  (src/main.ts:221, 257).
- Exit code 1 rejects with whatever stderr holds, even when stderr is
  empty or absent (src/LocalProcessor.ts:104-106).
- A link that does not resolve is read from `getFullPath("")`, not from
  the text it names (src/main.ts:204, 208).

## Model

| member | source | states |
|---|---|---|
| Settings.GetPlantUmlProcessor | src/main.ts:154-159 | the local processor is chosen exactly when `localJar` is non-empty |
| Settings.DefaultsUseServer | src/main.ts:24-31 | the default settings keep descriptions, have a non-empty server URL and select the server |
| ServerProcessor.BaseUrl | src/ServerProcessor.ts:16-19 | a non-empty configured URL is used verbatim; an empty one falls back to `https://www.plantuml.com/plantuml` |
| ServerProcessor.UrlParts | src/ServerProcessor.ts:20-24 | `svg` and `png` are exactly base + `/svg/` or `/png/` + `encode(source)`, each part recoverable by position |
| ServerProcessor.SvgPngDiffer | src/ServerProcessor.ts:20-22 | the SVG and PNG URLs agree on every character outside the format name |
| ServerProcessor.UrlDeterminedBySettingsUrl | src/ServerProcessor.ts:14-38 | the URLs depend only on the configured URL and the source: no other setting changes them |
| LocalProcessor.JarPathIgnoresVault | src/LocalProcessor.ts:133-140 | a `~` or absolute jar path does not depend on the vault location |
| LocalProcessor.JarPathHome | src/LocalProcessor.ts:133-136 | a leading `~` is replaced by the home directory, and the rest of the setting follows unchanged |
| LocalProcessor.CommandShape | src/LocalProcessor.ts:147-158 | the command fails with `Invalid local jar file` exactly when the jar path is empty; a `.jar` gives java, `-jar`, headless and the quoted jar; another path runs as the executable itself; both end with the quoted dot path, `-t<type>` and `-pipe` |
| LocalProcessor.Latin1 | src/LocalProcessor.ts:98 | `new Buffer(stdout, 'binary')` keeps one byte per character, the low eight bits |
| LocalProcessor.SettleExitCodes | src/LocalProcessor.ts:92-115 | with output present, only exit code 1 rejects (with stderr); 0, any other code and a null code resolve alike |
| LocalProcessor.SettleWithoutOutput | src/LocalProcessor.ts:93-95 | without any stdout the promise never settles, whatever the exit code |
| LocalProcessor.SettlePngDecodes | src/LocalProcessor.ts:97-100 | a resolved PNG is the base64 of stdout's bytes: decoding it gives them back |
| LocalProcessor.CacheKeysDistinct | src/LocalProcessor.ts:20-38 | PNG and SVG results never share a cache key |
| LocalProcessor.HitSkipsGeneration | src/LocalProcessor.ts:19-41 | on a non-empty cached value the result is that value (PNG with the data-URI prefix), the cache is unchanged and the process is never consulted |
| LocalProcessor.MissStores | src/LocalProcessor.ts:24-48 | on a miss (absent or empty value) a generated image is stored under the same key and returned; a failed generation changes nothing |
| LocalProcessor.RenderTouchesOneKey | src/LocalProcessor.ts:27-45 | no cache entry other than the diagram's own key is added, removed or changed |
| LocalProcessor.RenderTwice | src/LocalProcessor.ts:18-49 | once a result is stored, asking again returns the same result with the same cache, whatever the process would do |
| LocalProcessor.LocalProcessor.constructor | src/LocalProcessor.ts:13-15 | the processor starts with the given stored cache |
| LocalProcessor.LocalProcessor.Svg | src/LocalProcessor.ts:18-31 | the outcome and the new cache are those of one `svg` call on the old cache |
| LocalProcessor.LocalProcessor.Png | src/LocalProcessor.ts:33-49 | the outcome and the new cache are those of one `png` call on the old cache |
| Base64.DecodeEncode | src/main.ts:215 | decoding the base64 text of any bytes gives the bytes back |
| Base64.EncodeLength | src/main.ts:215 | the text has four characters per started group of three bytes |
| Base64.EncodeAlphabet | src/main.ts:215 | the text uses only the RFC 4648 alphabet and `=`, so it never holds `$` |
| Uri.DecodeEncode | src/main.ts:199 | `decodeURIComponent` undoes `encodeURIComponent` on every string |
| Uri.DecodePlain | src/main.ts:199 | a name without `%` decodes to itself |
| Uri.DecodeShrinks | src/main.ts:199 | a decoded name is never longer than the text |
| Uri.DecodeLiteral | src/main.ts:199 | a character other than `%` is copied and decoding goes on after it |
| Uri.DecodeAsciiEscape | src/main.ts:199 | a `%XY` escape of an ASCII byte decodes to that character |
| Uri.DecodeSpace | src/main.ts:198-199 | `%20` between two runs without `%` decodes to one space, as in `my%20file.png` |
| JsString.IndexOf | src/main.ts:179-182 | the result is the first offset at or after `from` where the pattern occurs, or none when it does not occur |
| JsString.ReplaceFirstAt | src/main.ts:219-222 | `replace` keeps the text before the first occurrence and after it, and puts a `$`-free replacement in its place |
| JsString.ReplaceAbsent | src/main.ts:219-222 | when the matched text does not occur, `replace` changes nothing |
| JsString.SubstituteLiteral | src/main.ts:221 | a replacement without `$` is inserted verbatim |
| Recognizers.FenceAtSound | src/main.ts:109 | a recognised fence is ```` ``` ````, a tag among `puml`, `plantuml`, `puml-svg`, a newline, the body, a newline and ```` ``` ````, with `match[1]` the tag and `match[2]` the body |
| Recognizers.FenceAtComplete | src/main.ts:109 | every fence at an offset is recognised there, with the same tag and a body no longer than any other (the lazy `[\s\S]*?`) |
| Recognizers.FenceTagUnique | src/main.ts:109 | at most one tag alternative can be followed by a newline at a position |
| Recognizers.WikiAtSound | src/main.ts:123 | a recognised embed reads `![[` stem `.` ext `]]`, with the stem non-empty and free of line terminators, the extension png, jpg or jpeg, and `match[1]` the file name |
| Recognizers.WikiAtComplete | src/main.ts:123 | every wiki embed at an offset is recognised there, and the stem is the shortest possible (the lazy `.+?`) |
| Recognizers.LinkAtSound | src/main.ts:137 | a recognised link reads `![` alt `](` stem `.` ext `)`, with no line terminator, `match[1]` the alt text and `match[2]` the path |
| Recognizers.LinkAtComplete | src/main.ts:137 | every image link at an offset is recognised there, with the shortest alt text and then the shortest path |
| Recognizers.BoldAtSound | src/checkMarkdown.ts:21 | a recognised span is `**`, one or more characters other than `*`, and `**`, and the group repeats the whole match |
| Recognizers.BoldAtComplete | src/checkMarkdown.ts:21 | every such span at an offset is recognised there exactly |
| Recognizers.FindFromSound | src/main.ts:112 | a search result is a match at the offset it reports |
| Recognizers.FindFromLeftmost | src/main.ts:112 | the search finds the leftmost match at or after the start offset |
| Recognizers.NoFenceFound | src/main.ts:109-112 | a text holding no plantuml fence has no fence match, whatever other "```" it holds |
| Recognizers.NoWikiFound | src/main.ts:123-126 | a text holding no wiki image embed has no embed match |
| Recognizers.NoLinkFound | src/main.ts:137-138 | a text holding no image link has no link match |
| Recognizers.NoBoldFound | src/checkMarkdown.ts:21-33 | a line holding no bold span has no bold match, whatever other `**` it holds |
| Recognizers.FindFromAbsent | src/main.ts:112-138 | a text in which the pattern's opening never occurs after the start has no match |
| Recognizers.MatchAtOpening | src/main.ts:109-137 | every match starts with its pattern's opening characters |
| Recognizers.GlobalRegex.constructor | src/main.ts:109 | a fresh regex object has `lastIndex` 0 |
| Recognizers.GlobalRegex.Exec | src/main.ts:112 | `exec` returns the first match at or after `lastIndex`; it then sets `lastIndex` to the match's end, or to 0 when there is none |
| Export.ImageMarkdownCarriesBytes | src/main.ts:215-221 | the replacement is `![desc](data:image/png;base64,` + text + `)`, where the text decodes to exactly the file's bytes |
| Export.FirstOccurrence | src/main.ts:219-222 | the first occurrence of the matched text is at or before the match itself, so `replace` may splice an earlier copy |
| Export.EmbedSplices | src/main.ts:213-222 | an unreadable file fails with its path; a readable one replaces the first occurrence of the matched text, and nothing else, by its image Markdown after `replace`'s `$`-pattern expansion, which is the image Markdown itself for a description without `$` |
| Export.WikiSplices | src/main.ts:234-258 | a malformed name fails; otherwise the decoded name is resolved, and the first occurrence becomes `![d](data:image/png;base64,B)`, with `d` the decoded name if descriptions are kept and `""` otherwise |
| Export.LinkSplices | src/main.ts:194-222 | the same for a standard link: only the path is decoded, and `d` is the alt text if descriptions are kept and `""` otherwise |
| Export.RewriterApplies | src/main.ts:126-144 | the rewrite the wiki and link loops apply is `replaceMDConentWiki` and `replaceMDConentNormal` respectively |
| Export.PlantUmlSplices | src/main.ts:172-182 | a fence's first occurrence becomes `![](url)` for the PNG URL, whatever the tag |
| Export.FenceScanDone | src/main.ts:112 | with no fence left after the cursor, the fence loop ends with the text and cache as they are |
| Export.FenceScanStops | src/main.ts:112-118 | a `png` that rejects or never settles ends the fence loop with its outcome and the cache it left |
| Export.FenceScanResolved | src/main.ts:112-185 | a fence whose `png` resolves to `url` is replaced via `replacePlantUML`, and the loop resumes at the old match's end in the rewritten text with the cache `png` left |
| Export.ImageRound | src/main.ts:126-144 | with no match left the image loop ends with the text; at the bound it is `Exhausted`; otherwise one round fails with the rewrite's failure, or resumes at the old match's end in the rewritten text |
| Export.FenceLeftBehind | src/main.ts:112-118 | when the rewritten text is shorter than the old match's end, the loop stops after one rewrite with that text, and later fences stay unconverted |
| Export.ImageScanFuel | src/main.ts:126-144 | a finished image scan gives the same result with any larger bound |
| Export.ImageStepFuel | src/main.ts:127-143 | the same for the rest of an image round once the rewrite has answered |
| Export.FenceScanFuel | src/main.ts:112-118 | a finished fence scan gives the same result and cache with any larger bound |
| Export.FenceStepFuel | src/main.ts:113-117 | the same for the rest of a round once `png` has answered |
| Export.ConvertNoPattern | src/main.ts:104-148 | a note holding no plantuml fence, no wiki image embed and no image link is copied unchanged, and the cache is untouched; ordinary code blocks, `![x]` without a link and other near misses may occur |
| Export.ConvertPlain | src/main.ts:104-148 | the special case of a note in which ```` ``` ```` and `![` do not occur at all |
| Export.ConvertFuel | src/main.ts:97-148 | a finished command gives the same result with any larger bound |
| Export.PlantUmlPng | src/main.ts:154-175 | the processor chosen by the settings renders the PNG; only the local one changes its cache |
| Export.RewriteDiagrams | src/main.ts:109-118 | the fence loop's result and cache are the fence scan's, from offset 0 on the old cache |
| Export.RewriteImages | src/main.ts:123-144 | the wiki or link loop's result is the image scan's from offset 0 |
| Export.ConvertAndCopyToClipboard | src/main.ts:97-148 | nothing is copied without a Markdown view; otherwise the copied text is fences, then wiki embeds, then links, each pass over the previous one's output |
| Legacy.LegacyConvertAndCopyToClipboard | main.ts:57-93 | the old command's result is the wiki pass, then the link pass over its output |
| Legacy.LegacyKeepsDescriptions | main.ts:105-168 | the old rewrites are the current ones with descriptions kept |
| Legacy.ImageScanSameRewrite | main.ts:73-91 | scans whose rewrites agree produce the same result |
| Legacy.LegacyAgrees | main.ts:63-93 | on a note holding no plantuml fence (other code blocks may occur), the current command with descriptions kept copies what the old one copied |
| Legacy.LegacyNoPattern | main.ts:63-93 | a note holding no wiki image embed and no image link is copied unchanged |
| Legacy.LegacyPlain | main.ts:63-93 | the special case of a note in which `![` does not occur at all |
| Legacy.LegacyLinkKeepsAlt | main.ts:105-133 | a found standard link occurs first at or before its match; an undecodable path or an unreadable file is an error, otherwise that first occurrence becomes `![alt](data:image/png;base64,B)` with the alt text kept |
| Legacy.LegacyWikiNamesImage | main.ts:143-167 | a found wiki embed occurs first at or before its match; an undecodable name or an unreadable file is an error, otherwise that first occurrence becomes `![f](data:image/png;base64,B)` with the percent-decoded name `f` as description |
| CheckMarkdown.SplitLines | src/checkMarkdown.ts:17 | splitting always gives at least one line |
| CheckMarkdown.SplitLinesCount | src/checkMarkdown.ts:17 | there is one line more than there are line feeds, and no line holds a line feed |
| CheckMarkdown.SplitJoin | src/checkMarkdown.ts:17 | without carriage returns, joining the lines with `\n` gives the text back |
| CheckMarkdown.SplitCrLfJoin | src/checkMarkdown.ts:17 | lines without line feeds joined by `\r\n` split back into exactly those lines: `\r\n` is one separator and its carriage return is dropped |
| CheckMarkdown.Spans | src/checkMarkdown.ts:31-33 | every span found from an offset has two groups and starts at or after that offset |
| CheckMarkdown.SpansAreBold | src/checkMarkdown.ts:21-33 | the spans are `**x**` with `x` non-empty and free of `*`, found left to right without overlapping |
| CheckMarkdown.FaultyFromSpans | src/checkMarkdown.ts:33-47 | the loop finds a problem exactly when some span has an existing neighbour that is not allowed |
| CheckMarkdown.OneSpanLine | src/checkMarkdown.ts:37-41 | for a line with one span, it is faulty exactly when the character before exists and is not allowed, or the one after does; the line's edges never count |
| CheckMarkdown.NoBoldWithoutStar | src/checkMarkdown.ts:21 | no span starts in a stretch without `*` |
| CheckMarkdown.ReportSound | src/checkMarkdown.ts:26-53 | every reported line is faulty, numbered from 1 up to the line count, strictly increasing, and carries that line's exact text |
| CheckMarkdown.ReportComplete | src/checkMarkdown.ts:26-54 | every faulty line is reported, with its number and text |
| CheckMarkdown.NoSpansNoReport | src/checkMarkdown.ts:26-57 | a text none of whose lines holds a bold span gives an empty report, even where `**` occurs (`a ** b`, `***`) |
| CheckMarkdown.NoBoldNoReport | src/checkMarkdown.ts:33-57 | the special case of a text in which `**` does not occur at all |
| CheckMarkdown.CheckMarkdownFormatIssuesForBold | src/checkMarkdown.ts:16-58 | the method's result is the report over the split lines |
| ExcalidrawHelper.EscapeLength | src/CopyExcalidrawHelper.ts:169-171 | the escaped text is longer by the number of special characters |
| ExcalidrawHelper.UnescapeEscape | src/CopyExcalidrawHelper.ts:169-171 | dropping the inserted backslashes gives the input back |
| ExcalidrawHelper.EscapedSpecials | src/CopyExcalidrawHelper.ts:169-171 | every special character other than `\` in the output follows a backslash |
| ExcalidrawHelper.LastSlash | src/CopyExcalidrawHelper.ts:194 | the result is the offset of the last `/`, or none when there is none |
| ExcalidrawHelper.SplitPath | src/CopyExcalidrawHelper.ts:194 | a split gives a directory and a non-empty file name without `/`, joined by `/` into the path; there is no split exactly when the path has no `/` or ends with one |
| ExcalidrawHelper.SplitPathOf | src/CopyExcalidrawHelper.ts:194 | `dir/name` with a non-empty, slash-free name splits into `dir` and `name` |
| ExcalidrawHelper.BasenameOfNote | src/CopyExcalidrawHelper.ts:194-195 | the base name of `dir/name.md` is `name` |
| ExcalidrawHelper.BasenameWithoutSlash | src/CopyExcalidrawHelper.ts:194-195 | a path without `/` has no file name, and the base name throws |
| ExcalidrawHelper.NormalizeVaultPath | src/CopyExcalidrawHelper.ts:49-50 | every `\` becomes `/` and every other character is kept |
| ExcalidrawHelper.VaultUriPrefixSlashes | src/CopyExcalidrawHelper.ts:49-52 | the URI prefix holds no backslash, and normalising twice changes nothing |
| ExcalidrawHelper.IsSvgMimeType | src/CopyExcalidrawHelper.ts:237-239 | an extension's mime type is SVG exactly for `svg` (or the literal `svg+xml`) |
| ExcalidrawHelper.MimeTypeIsImage | src/CopyExcalidrawHelper.ts:34-38 | every mime type from the table starts with `image/` |

## Left out

- The clipboard write, `Notice`, logging, the settings tab, the ribbon and
  command registration, and `loadData`/`saveData`: host bindings. The
  model's result is the text that would be written to the clipboard.
- `getFirstLinkpathDest`, `getFullPath` and `fs.readFileSync` are fields of
  `Export.Vault`. A throwing read is a `None`.
- `plantuml-encoder` is an opaque `encode` parameter. The deflate step and
  the custom alphabet are not modelled.
- `localforage` is the `map` field `cache` of `LocalProcessor.LocalProcessor`.
  Its asynchrony and persistence are not modelled.
- `child_process.exec`, the stream callbacks and the stdin write are a
  function from the command, cwd, source and output type to the events of
  one run. Only the argument list, the joined command and the exit-code
  rule are modelled.
- Rejected promises from `generateLocalImage` propagate through `png` and
  `convertAndCopyToClipboard`. The model stops the command at the first
  rejection, as the `await` does.
- `src/MermaidProcessor.ts`, `src/DialogModal.ts` and
  `src/LoadingModal.ts`: DOM, `FileReader` and UI only.
- `renderMarkdown`, `untilRendered`, `transformHTML` and `readBold` in
  `src/CopyExcalidrawHelper.ts`: DOM rendering, `fetch`, and a timing
  scheme on shared globals.
- The compiled pattern and the `replace` call in
  `replaceMarkdownLinksExcludingCode` (src/CopyExcalidrawHelper.ts:198-200)
  would need a general regular-expression engine. Only the escaping and the
  path split that feed it are modelled.
- `mimeMap` is declared but never read in the file.
  `ExcalidrawHelper.MimeType` states the table that its comment describes.
- `formatBytes`: floating-point `Math.log` and `toFixed`.
- Strings are sequences of Unicode scalar values, not UTF-16 code units.
  Offsets and lengths past U+FFFF differ from JavaScript's, and lone
  surrogates cannot occur.
- Export.ImageScan, Export.FenceScan: a `fuel` bound caps the number of
  rewrites, and reaching it is `Exhausted`. The real loops can run forever
  when a replacement puts a new match behind the cursor. The model does not
  decide whether that happens.
- Export.WikiSplices, Export.LinkSplices, Legacy.LegacyLinkKeepsAlt,
  Legacy.LegacyWikiNamesImage: the spliced form is stated only for a kept
  description without `$`. With a `$`, `replace` expands `$$`, `$&`, `` $` ``
  and `$'`, and the result is what `JsString.ReplaceFirst` computes with
  those patterns.
- Export.FenceLeftBehind, Export.PlantUmlSplices: stated
  for a URL without `$`. A server URL or an encoded diagram with `$` goes
  through the same pattern expansion.
- LocalProcessor.TypeName: the strings of `OutputType` come from the
  `./const` module, which is not part of this model; they are taken to be
  `png` and `svg`, and only the `-t<type>` argument of the command line
  depends on that. The cache keys use the literal `png-` and `svg-` of the
  source.
- Export.Rewriter checks that the match has the pattern's group count
  before rewriting. The search always satisfies that, so the check never
  fails.
- `resolveLocalJarCmd` reads `localJar[0]`, which is `undefined` for an
  empty setting. The model treats the empty setting as not starting with
  `~`, which is what that comparison gives.
