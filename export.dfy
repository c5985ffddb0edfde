/** The export command: the current note's Markdown with every PlantUML
    fence turned into an image link and every local image embedded as a
    base 64 data URI.  Three global regular expressions are run one after
    the other, each a `while (regex.exec(content))` loop that rewrites
    `content` with `content.replace(match[0], ...)`. */
module Export {
  import opened Wrappers
  import opened Outcome
  import opened JsString
  import opened Recognizers
  import opened Settings
  import Base64
  import Uri
  import LocalProcessor
  import ServerProcessor

  /** The vault as the rewrites see it. */
  datatype Vault = Vault(
    notePath: string,                                 // view.file?.path ?? ""
    linkpathDest: (string, string) -> Option<string>, // metadataCache.getFirstLinkpathDest(..)?.path
    fullPath: string -> string,                       // adapter.getFullPath
    readFile: string -> Option<Base64.Bytes>)         // fs.readFileSync; None when it throws

  /** What the diagram providers depend on: the PlantUML encoder and the host. */
  datatype Diagrams = Diagrams(encode: string -> string, host: LocalProcessor.Host)

  /** The file an image name resolves to; an unresolved name falls back to
      the full path of "". */
  function ImagePath(vault: Vault, filename: string): string {
    vault.fullPath(vault.linkpathDest(filename, vault.notePath).GetOr(""))
  }

  const DataUriPrefix: string := "data:image/png;base64,"

  /** The replacement of an image: the mime type is always image/png. */
  function ImageMarkdown(desc: string, bytes: Base64.Bytes): string {
    "![" + desc + "](" + DataUriPrefix + Base64.Encode(bytes) + ")"
  }

  /** The data URI of an embedded image carries exactly the file's bytes. */
  lemma ImageMarkdownCarriesBytes(desc: string, bytes: Base64.Bytes)
    ensures var t := ImageMarkdown(desc, bytes);
      var n := |desc| + 4 + |DataUriPrefix|;
      && n < |t| && t[..n] == "![" + desc + "](" + DataUriPrefix && t[|t| - 1] == ')'
      && Base64.Decode(t[n..|t| - 1]) == Some(bytes)
  {
    var t := ImageMarkdown(desc, bytes);
    var n := |desc| + 4 + |DataUriPrefix|;
    assert t == ("![" + desc + "](" + DataUriPrefix) + Base64.Encode(bytes) + ")";
    assert t[n..|t| - 1] == Base64.Encode(bytes);
    Base64.DecodeEncode(bytes);
  }

  /** Embedding an image: read the file, then replace the first occurrence
      of the matched text. */
  function Embed(vault: Vault, content: string, matched: string, filename: string, desc: string): Result<string, Failure> {
    var path := ImagePath(vault, filename);
    match vault.readFile(path)
    case None => Failure(ReadFailed(path))
    case Some(bytes) => Success(ReplaceFirst(content, matched, ImageMarkdown(desc, bytes)))
  }

  /** replaceMDConentWiki: the file name is `match[1]`, percent-decoded,
      and it is also the description when descriptions are kept. */
  function ReplaceWiki(vault: Vault, needDesc: bool, content: string, m: Match): Result<string, Failure>
    requires |m.groups| == 3
  {
    match Uri.Decode(m.groups[1])
    case None => Failure(MalformedUri(m.groups[1]))
    case Some(filename) => Embed(vault, content, m.groups[0], filename, if needDesc then filename else "")
  }

  /** replaceMDConentNormal: the file name is `match[2]`, percent-decoded;
      the description is the alternative text `match[1]` as written. */
  function ReplaceNormal(vault: Vault, needDesc: bool, content: string, m: Match): Result<string, Failure>
    requires |m.groups| == 4
  {
    match Uri.Decode(m.groups[2])
    case None => Failure(MalformedUri(m.groups[2]))
    case Some(filename) => Embed(vault, content, m.groups[0], filename, if needDesc then m.groups[1] else "")
  }

  function ReplaceImage(p: Pattern, vault: Vault, needDesc: bool, content: string, m: Match): Result<string, Failure>
    requires p == WikiImage || p == LinkImage
    requires |m.groups| == GroupCount(p)
  {
    if p == WikiImage then ReplaceWiki(vault, needDesc, content, m)
    else ReplaceNormal(vault, needDesc, content, m)
  }

  /** replacePlantUML: the fence becomes an image of the processor's `png`. */
  function ReplacePlantUml(content: string, m: Match, png: string): string
    requires |m.groups| == 3
  {
    ReplaceFirst(content, m.groups[0], "![](" + png + ")")
  }

  /** `getPlantUmlProcessor().png(source)`, with the local cache before and after. */
  function DiagramPng(settings: Settings, diagrams: Diagrams, cache: map<string, string>, source: string)
    : (Completion<string>, map<string, string>)
  {
    match GetPlantUmlProcessor(settings)
    case Server => (Resolved(ServerProcessor.Png(settings, diagrams.encode, source)), cache)
    case Local => LocalProcessor.Render(settings, diagrams.host, diagrams.encode, cache, LocalProcessor.PNG, source)
  }

  /** The rewrite a wiki or link match stands for; a match always has its
      pattern's groups, so the guard never fails. */
  function Rewriter(p: Pattern, vault: Vault, needDesc: bool): (string, Match) -> Result<string, Failure>
    requires p == WikiImage || p == LinkImage
  {
    (content: string, m: Match) =>
      if |m.groups| == GroupCount(p) then ReplaceImage(p, vault, needDesc, content, m) else Success(content)
  }

  /** The wiki or link loop, searching from `from`, for at most `fuel`
      rewrites. */
  function ImageScan(p: Pattern, rewrite: (string, Match) -> Result<string, Failure>, content: string, from: nat, fuel: nat): Completion<string>
    decreases fuel, 1
  {
    match FindFrom(p, content, from)
    case None => Resolved(content)
    case Some(m) => if fuel == 0 then Exhausted else ImageStep(p, rewrite, m, rewrite(content, m), fuel)
  }

  /** The rest of a round, once `rewrite` has answered for match `m`. */
  function ImageStep(p: Pattern, rewrite: (string, Match) -> Result<string, Failure>, m: Match,
                     rewritten: Result<string, Failure>, fuel: nat): Completion<string>
    requires |m.groups| > 0 && fuel > 0
    decreases fuel, 0
  {
    match rewritten
    case Failure(e) => Rejected(e)
    case Success(next) => ImageScan(p, rewrite, next, End(m), fuel - 1)
  }

  /** A diagram processor's `png`: from the cache before the call and the
      diagram source, the outcome and the cache after it. */
  type Png = (map<string, string>, string) -> (Completion<string>, map<string, string>)

  /** `getPlantUmlProcessor().png` as a function of the cache before the
      call, giving the outcome and the cache after it. */
  function Renderer(settings: Settings, diagrams: Diagrams): Png {
    (cache: map<string, string>, source: string) => DiagramPng(settings, diagrams, cache, source)
  }

  /** The fence loop, searching from `from`, for at most `fuel` rewrites;
      an unsettled or rejected `png` ends it. */
  function FenceScan(png: Png, content: string, from: nat, cache: map<string, string>, fuel: nat)
    : (Completion<string>, map<string, string>)
    decreases fuel, 1
  {
    match FindFrom(Fence, content, from)
    case None => (Resolved(content), cache)
    case Some(m) =>
      if fuel == 0 then (Exhausted, cache)
      else FenceStep(png, content, m, png(cache, m.groups[2]), fuel)
  }

  /** The rest of a fence round once `png` has answered for the fence `m`:
      a resolved image is spliced in and the loop goes on from the fence's
      old end offset; any other outcome ends the loop. */
  function FenceStep(png: Png, content: string, m: Match, image: (Completion<string>, map<string, string>), fuel: nat)
    : (Completion<string>, map<string, string>)
    requires |m.groups| == 3 && fuel > 0
    decreases fuel, 0
  {
    if image.0.Resolved? then FenceScan(png, ReplacePlantUml(content, m, image.0.value), End(m), image.1, fuel - 1)
    else image
  }

  // -------------------------------------------------------------------
  // What one rewrite does

  /** The matched text occurs in the document, first at or before the
      match itself, so `replace` finds something to replace. */
  lemma FirstOccurrence(p: Pattern, content: string, from: nat, m: Match)
    requires FindFrom(p, content, from) == Some(m)
    ensures IndexOf(content, m.groups[0], 0).Some?
    ensures IndexOf(content, m.groups[0], 0).value <= m.index
  {
    FindFromSound(p, content, from);
    assert StartsAt(content, m.index, m.groups[0]);
  }

  /** Embedding replaces the first occurrence of the matched text, and
      nothing else, by the image with the file's bytes as a PNG data URI
      (whatever the file's extension); a file that cannot be read is an
      error.  The image text goes through `replace`'s `$` patterns, which
      leave it as it is when the description holds no `$`. */
  lemma EmbedSplices(vault: Vault, content: string, matched: string, filename: string, desc: string, k: nat)
    requires IndexOf(content, matched, 0) == Some(k)
    ensures var path := ImagePath(vault, filename);
      match vault.readFile(path)
      case None => Embed(vault, content, matched, filename, desc) == Failure(ReadFailed(path))
      case Some(bytes) =>
        var before, after := content[..k], content[k + |matched|..];
        && Embed(vault, content, matched, filename, desc)
             == Success(before + Substitute(ImageMarkdown(desc, bytes), matched, before, after) + after)
        && ('$' !in desc ==> Embed(vault, content, matched, filename, desc)
                               == Success(before + ImageMarkdown(desc, bytes) + after))
  {
    var path := ImagePath(vault, filename);
    match vault.readFile(path)
    case None =>
    case Some(bytes) =>
      var t := ImageMarkdown(desc, bytes);
      ReplaceFirstSplit(content, matched, t, k);
      if '$' !in desc {
        ImageMarkdownLiteral(desc, bytes);
        SubstituteLiteral(t, matched, content[..k], content[k + |matched|..]);
      }
  }

  /** The image text holds a `$` only where the description does. */
  lemma ImageMarkdownLiteral(desc: string, bytes: Base64.Bytes)
    requires '$' !in desc
    ensures '$' !in ImageMarkdown(desc, bytes)
  {
    Base64.EncodeAlphabet(bytes);
    assert ImageMarkdown(desc, bytes) == "![" + desc + "](" + DataUriPrefix + Base64.Encode(bytes) + ")";
  }

  /** A wiki embed `![[f]]`: `f` is percent-decoded, and the decoded name is
      the description when descriptions are kept; the first occurrence `k`
      of the embed becomes `![d](data:image/png;base64,B)`. */
  lemma WikiSplices(vault: Vault, needDesc: bool, content: string, m: Match, k: nat)
    requires |m.groups| == 3 && IndexOf(content, m.groups[0], 0) == Some(k)
    ensures var r := ReplaceWiki(vault, needDesc, content, m);
      match Uri.Decode(m.groups[1])
      case None => r == Failure(MalformedUri(m.groups[1]))
      case Some(f) =>
        var path := ImagePath(vault, f);
        match vault.readFile(path)
        case None => r == Failure(ReadFailed(path))
        case Some(bytes) =>
          (needDesc ==> '$' !in f) ==>
            r == Success(content[..k] + ImageMarkdown(if needDesc then f else "", bytes) + content[k + |m.groups[0]|..])
  {
    match Uri.Decode(m.groups[1])
    case None =>
    case Some(f) =>
      if needDesc ==> '$' !in f {
        EmbedSplices(vault, content, m.groups[0], f, if needDesc then f else "", k);
      }
  }

  /** A standard link `![alt](p)`: `p` is percent-decoded, `alt` is the
      description as written when descriptions are kept; the first
      occurrence `k` of the link becomes `![d](data:image/png;base64,B)`. */
  lemma LinkSplices(vault: Vault, needDesc: bool, content: string, m: Match, k: nat)
    requires |m.groups| == 4 && IndexOf(content, m.groups[0], 0) == Some(k)
    ensures var r := ReplaceNormal(vault, needDesc, content, m);
      match Uri.Decode(m.groups[2])
      case None => r == Failure(MalformedUri(m.groups[2]))
      case Some(f) =>
        var path := ImagePath(vault, f);
        match vault.readFile(path)
        case None => r == Failure(ReadFailed(path))
        case Some(bytes) =>
          (needDesc ==> '$' !in m.groups[1]) ==>
            r == Success(content[..k] + ImageMarkdown(if needDesc then m.groups[1] else "", bytes) + content[k + |m.groups[0]|..])
  {
    match Uri.Decode(m.groups[2])
    case None =>
    case Some(f) =>
      if needDesc ==> '$' !in m.groups[1] {
        EmbedSplices(vault, content, m.groups[0], f, if needDesc then m.groups[1] else "", k);
      }
  }

  /** The rewrite the wiki and link scans apply to a match they found is
      `ReplaceWiki` or `ReplaceNormal`, at the first occurrence of the
      matched text, which is at or before the match. */
  lemma RewriterApplies(p: Pattern, vault: Vault, needDesc: bool, content: string, from: nat, m: Match)
    requires p == WikiImage || p == LinkImage
    requires FindFrom(p, content, from) == Some(m)
    ensures IndexOf(content, m.groups[0], 0).Some? && IndexOf(content, m.groups[0], 0).value <= m.index
    ensures Rewriter(p, vault, needDesc)(content, m)
         == if p == WikiImage then ReplaceWiki(vault, needDesc, content, m) else ReplaceNormal(vault, needDesc, content, m)
  {
    FirstOccurrence(p, content, from, m);
  }

  /** `replacePlantUML`: the first occurrence `k` of the fence becomes
      `![](url)`. */
  lemma PlantUmlSplices(content: string, m: Match, url: string, k: nat)
    requires |m.groups| == 3 && IndexOf(content, m.groups[0], 0) == Some(k)
    requires '$' !in url
    ensures ReplacePlantUml(content, m, url) == content[..k] + "![](" + url + ")" + content[k + |m.groups[0]|..]
    ensures |ReplacePlantUml(content, m, url)| == |content| - |m.groups[0]| + |url| + 5
  {
    var t := "![](" + url + ")";
    assert '$' !in t;
    ReplaceFirstAt(content, m.groups[0], t, k);
  }

  /** The fence loop ends with the text as it is when no fence is left. */
  lemma FenceScanDone(png: Png, content: string, from: nat, cache: map<string, string>, fuel: nat)
    requires FindFrom(Fence, content, from).None?
    ensures FenceScan(png, content, from, cache, fuel) == (Resolved(content), cache)
  {
  }

  /** A `png` that rejects or never settles ends the fence loop with its
      outcome and the cache it left. */
  lemma FenceScanStops(png: Png, content: string, from: nat, cache: map<string, string>, fuel: nat, m: Match)
    requires FindFrom(Fence, content, from) == Some(m) && fuel > 0
    requires !png(cache, m.groups[2]).0.Resolved?
    ensures FenceScan(png, content, from, cache, fuel) == png(cache, m.groups[2])
  {
  }

  /** One round of the wiki or link loop, by the outcome of the search and
      of the rewrite. */
  lemma ImageRound(p: Pattern, rewrite: (string, Match) -> Result<string, Failure>, content: string, from: nat, fuel: nat)
    ensures FindFrom(p, content, from).None? ==> ImageScan(p, rewrite, content, from, fuel) == Resolved(content)
    ensures FindFrom(p, content, from).Some? && fuel == 0 ==> ImageScan(p, rewrite, content, from, fuel) == Exhausted
    ensures FindFrom(p, content, from).Some? && fuel > 0 ==>
      var m := FindFrom(p, content, from).value;
      && (rewrite(content, m).Failure? ==> ImageScan(p, rewrite, content, from, fuel) == Rejected(rewrite(content, m).error))
      && (rewrite(content, m).Success? ==>
            ImageScan(p, rewrite, content, from, fuel) == ImageScan(p, rewrite, rewrite(content, m).value, End(m), fuel - 1))
  {
  }

  /** A fence round: when `png` resolves to `url`, the fence's first
      occurrence is spliced out (see `PlantUmlSplices`), and the search
      resumes at the fence's old end offset in the rewritten text, with the
      cache `png` left. */
  lemma FenceScanResolved(png: Png, content: string, from: nat, cache: map<string, string>, fuel: nat,
                          m: Match, url: string, after: map<string, string>)
    requires FindFrom(Fence, content, from) == Some(m) && fuel > 0
    requires png(cache, m.groups[2]) == (Resolved(url), after)
    ensures FenceScan(png, content, from, cache, fuel)
         == FenceScan(png, ReplacePlantUml(content, m, url), End(m), after, fuel - 1)
  {
  }

  /** The cursor is not moved back after a fence shrinks to an image: when
      the rewritten text ends before the fence's old end offset, the scan
      stops there, and whatever follows the fence, other fences included,
      reaches the output unconverted: the result is the text with this one
      fence spliced out as `PlantUmlSplices` says. */
  lemma FenceLeftBehind(png: Png, content: string, from: nat, cache: map<string, string>, fuel: nat,
                        m: Match, url: string, after: map<string, string>)
    requires FindFrom(Fence, content, from) == Some(m) && fuel > 0
    requires png(cache, m.groups[2]) == (Resolved(url), after)
    requires '$' !in url
    requires |content| - |m.groups[0]| + |url| + 5 < End(m)
    ensures FenceScan(png, content, from, cache, fuel) == (Resolved(ReplacePlantUml(content, m, url)), after)
  {
    FirstOccurrence(Fence, content, from, m);
    PlantUmlSplices(content, m, url, IndexOf(content, m.groups[0], 0).value);
    var next := ReplacePlantUml(content, m, url);
    assert FindFrom(Fence, next, End(m)).None?;
    FenceScanResolved(png, content, from, cache, fuel, m, url, after);
    FenceScanDone(png, next, End(m), after, fuel - 1);
  }

  // -------------------------------------------------------------------
  // Whole scans

  /** More rounds never change a scan that finished, nor (below) the rest
      of a round. */
  lemma {:induction false} ImageScanFuel(p: Pattern, rewrite: (string, Match) -> Result<string, Failure>,
                                         content: string, from: nat, fuel: nat, more: nat)
    requires fuel <= more && ImageScan(p, rewrite, content, from, fuel) != Exhausted
    ensures ImageScan(p, rewrite, content, from, more) == ImageScan(p, rewrite, content, from, fuel)
    decreases fuel, 1
  {
    var found := FindFrom(p, content, from);
    if found.Some? {
      var m := found.value;
      ImageStepFuel(p, rewrite, m, rewrite(content, m), fuel, more);
    }
  }

  lemma {:induction false} ImageStepFuel(p: Pattern, rewrite: (string, Match) -> Result<string, Failure>, m: Match,
                                         rewritten: Result<string, Failure>, fuel: nat, more: nat)
    requires |m.groups| > 0 && 0 < fuel <= more && ImageStep(p, rewrite, m, rewritten, fuel) != Exhausted
    ensures ImageStep(p, rewrite, m, rewritten, more) == ImageStep(p, rewrite, m, rewritten, fuel)
    decreases fuel, 0
  {
    if rewritten.Success? {
      ImageScanFuel(p, rewrite, rewritten.value, End(m), fuel - 1, more - 1);
    }
  }

  /** More rounds never change a fence scan that finished, nor (below) the
      rest of a round. */
  lemma {:induction false} FenceScanFuel(png: Png, content: string, from: nat, cache: map<string, string>, fuel: nat, more: nat)
    requires fuel <= more && FenceScan(png, content, from, cache, fuel).0 != Exhausted
    ensures FenceScan(png, content, from, cache, more) == FenceScan(png, content, from, cache, fuel)
    decreases fuel, 1
  {
    var found := FindFrom(Fence, content, from);
    if found.Some? {
      var m := found.value;
      FenceStepFuel(png, content, m, png(cache, m.groups[2]), fuel, more);
    }
  }

  lemma {:induction false} FenceStepFuel(png: Png, content: string, m: Match, image: (Completion<string>, map<string, string>),
                                         fuel: nat, more: nat)
    requires |m.groups| == 3 && 0 < fuel <= more && FenceStep(png, content, m, image, fuel).0 != Exhausted
    ensures FenceStep(png, content, m, image, more) == FenceStep(png, content, m, image, fuel)
    decreases fuel, 0
  {
    if image.0.Resolved? {
      FenceScanFuel(png, ReplacePlantUml(content, m, image.0.value), End(m), image.1, fuel - 1, more - 1);
    }
  }

  function Lift(c: Completion<string>): Completion<Option<string>> {
    match c
    case Resolved(v) => Resolved(Some(v))
    case Rejected(f) => Rejected(f)
    case Pending => Pending
    case Exhausted => Exhausted
  }

  /** convertAndCopyToClipboard: no Markdown view gives nothing to copy;
      otherwise fences, then wiki embeds, then links, each pass over the
      output of the one before.  `Resolved(Some(t))` means `t` is written
      to the clipboard. */
  function Convert(settings: Settings, diagrams: Diagrams, vault: Vault, view: Option<string>,
                   cache: map<string, string>, fuel: nat): (Completion<Option<string>>, map<string, string>)
  {
    match view
    case None => (Resolved(None), cache)
    case Some(data) =>
      var (fenced, after) := FenceScan(Renderer(settings, diagrams), data, 0, cache, fuel);
      if !fenced.Resolved? then (Lift(fenced), after)
      else
        var wiki := ImageScan(WikiImage, Rewriter(WikiImage, vault, settings.needImageDesc), fenced.value, 0, fuel);
        if !wiki.Resolved? then (Lift(wiki), after)
        else (Lift(ImageScan(LinkImage, Rewriter(LinkImage, vault, settings.needImageDesc), wiki.value, 0, fuel)), after)
  }

  /** A note without "```" and without "![" reaches the clipboard unchanged,
      and the cache is not touched. */
  lemma ConvertPlain(settings: Settings, diagrams: Diagrams, vault: Vault, data: string,
                     cache: map<string, string>, fuel: nat)
    requires forall k :: 0 <= k <= |data| ==> !StartsAt(data, k, "```") && !StartsAt(data, k, "![")
    ensures Convert(settings, diagrams, vault, Some(data), cache, fuel) == (Resolved(Some(data)), cache)
  {
    FindFromAbsent(Fence, data, 0);
    forall k | 0 <= k <= |data|
      ensures !StartsAt(data, k, "![[")
    {
      StartsAtConcat(data, k, "![", "[");
    }
    FindFromAbsent(WikiImage, data, 0);
    FindFromAbsent(LinkImage, data, 0);
  }

  /** A note holding no plantuml fence, no wiki image embed and no image
      link reaches the clipboard unchanged, and the cache is not touched;
      ordinary code blocks and a `![` that starts no link may occur. */
  lemma ConvertNoPattern(settings: Settings, diagrams: Diagrams, vault: Vault, data: string,
                         cache: map<string, string>, fuel: nat)
    requires forall i: nat, tag, body :: !IsFence(data, i, tag, body)
    requires forall i: nat, stem, ext :: !IsWiki(data, i, stem, ext)
    requires forall i: nat, alt, stem, ext :: !IsLink(data, i, alt, stem, ext)
    ensures Convert(settings, diagrams, vault, Some(data), cache, fuel) == (Resolved(Some(data)), cache)
  {
    NoFenceFound(data, 0);
    NoWikiFound(data, 0);
    NoLinkFound(data, 0);
  }

  /** More rounds never change a conversion that finished. */
  lemma ConvertFuel(settings: Settings, diagrams: Diagrams, vault: Vault, view: Option<string>,
                    cache: map<string, string>, fuel: nat, more: nat)
    requires fuel <= more && Convert(settings, diagrams, vault, view, cache, fuel).0 != Exhausted
    ensures Convert(settings, diagrams, vault, view, cache, more) == Convert(settings, diagrams, vault, view, cache, fuel)
  {
    if view.Some? {
      var data := view.value;
      var png := Renderer(settings, diagrams);
      FenceScanFuel(png, data, 0, cache, fuel, more);
      var fenced := FenceScan(png, data, 0, cache, fuel).0;
      if fenced.Resolved? {
        var wr := Rewriter(WikiImage, vault, settings.needImageDesc);
        ImageScanFuel(WikiImage, wr, fenced.value, 0, fuel, more);
        var wiki := ImageScan(WikiImage, wr, fenced.value, 0, fuel);
        if wiki.Resolved? {
          ImageScanFuel(LinkImage, Rewriter(LinkImage, vault, settings.needImageDesc), wiki.value, 0, fuel, more);
        }
      }
    }
  }

  // -------------------------------------------------------------------
  // The loops

  /** `getPlantUmlProcessor().png(source)` on the plugin's processors. */
  method PlantUmlPng(settings: Settings, diagrams: Diagrams, local: LocalProcessor.LocalProcessor, source: string)
    returns (r: Completion<string>)
    modifies local
    ensures (r, local.cache) == Renderer(settings, diagrams)(old(local.cache), source)
  {
    if GetPlantUmlProcessor(settings) == Local {
      r := local.Png(settings, diagrams.host, diagrams.encode, source);
    } else {
      r := Resolved(ServerProcessor.Png(settings, diagrams.encode, source));
    }
  }

  /** The fence loop: `content` is rewritten while the regular expression's
      `lastIndex` carries on from where the last match ended. */
  method RewriteDiagrams(settings: Settings, diagrams: Diagrams, local: LocalProcessor.LocalProcessor,
                         content: string, fuel: nat) returns (r: Completion<string>)
    modifies local
    ensures (r, local.cache) == FenceScan(Renderer(settings, diagrams), content, 0, old(local.cache), fuel)
  {
    var regex := new GlobalRegex(Fence);
    var text := content;
    var budget := fuel;
    while true
      invariant fresh(regex) && regex.pattern == Fence
      invariant FenceScan(Renderer(settings, diagrams), text, regex.lastIndex, local.cache, budget)
             == FenceScan(Renderer(settings, diagrams), content, 0, old(local.cache), fuel)
      decreases budget
    {
      var m := regex.Exec(text);
      if m.None? {
        return Resolved(text);
      }
      if budget == 0 {
        return Exhausted;
      }
      var png := PlantUmlPng(settings, diagrams, local, m.value.groups[2]);
      if !png.Resolved? {
        return png;
      }
      text := ReplacePlantUml(text, m.value, png.value);
      budget := budget - 1;
    }
  }

  /** The wiki or link loop over `content`. */
  method RewriteImages(p: Pattern, rewrite: (string, Match) -> Result<string, Failure>, content: string, fuel: nat)
    returns (r: Completion<string>)
    ensures r == ImageScan(p, rewrite, content, 0, fuel)
  {
    var regex := new GlobalRegex(p);
    var text := content;
    var budget := fuel;
    while true
      invariant fresh(regex) && regex.pattern == p
      invariant ImageScan(p, rewrite, text, regex.lastIndex, budget) == ImageScan(p, rewrite, content, 0, fuel)
      decreases budget
    {
      ImageRound(p, rewrite, text, regex.lastIndex, budget);
      var m := regex.Exec(text);
      if m.None? {
        return Resolved(text);
      }
      if budget == 0 {
        return Exhausted;
      }
      var next := rewrite(text, m.value);
      if next.Failure? {
        return Rejected(next.error);
      }
      text := next.value;
      budget := budget - 1;
    }
  }

  /** convertAndCopyToClipboard; the result is what reaches the clipboard. */
  method ConvertAndCopyToClipboard(settings: Settings, diagrams: Diagrams, vault: Vault,
                                   local: LocalProcessor.LocalProcessor, view: Option<string>, fuel: nat)
    returns (r: Completion<Option<string>>)
    modifies local
    ensures (r, local.cache) == Convert(settings, diagrams, vault, view, old(local.cache), fuel)
  {
    if view.None? {
      return Resolved(None);
    }
    var fenced := RewriteDiagrams(settings, diagrams, local, view.value, fuel);
    if !fenced.Resolved? {
      return Lift(fenced);
    }
    var wiki := RewriteImages(WikiImage, Rewriter(WikiImage, vault, settings.needImageDesc), fenced.value, fuel);
    if !wiki.Resolved? {
      return Lift(wiki);
    }
    var links := RewriteImages(LinkImage, Rewriter(LinkImage, vault, settings.needImageDesc), wiki.value, fuel);
    return Lift(links);
  }
}
