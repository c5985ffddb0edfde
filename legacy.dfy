/** The first version of the export command (the top-level `main.ts`):
    no diagram pass and no setting for descriptions.  Wiki embeds are
    rewritten first, then standard links, and every image keeps its
    description. */
module Legacy {
  import opened Wrappers
  import opened Outcome
  import opened JsString
  import opened Recognizers
  import Uri
  import opened Settings
  import Export

  /** replaceMDConentWiki: the percent-decoded name is always the description. */
  function LegacyWiki(vault: Export.Vault, content: string, m: Match): Result<string, Failure>
    requires |m.groups| == 3
  {
    match Uri.Decode(m.groups[1])
    case None => Failure(MalformedUri(m.groups[1]))
    case Some(filename) => Export.Embed(vault, content, m.groups[0], filename, filename)
  }

  /** replaceMDConentNormal: the alternative text is always the description. */
  function LegacyNormal(vault: Export.Vault, content: string, m: Match): Result<string, Failure>
    requires |m.groups| == 4
  {
    match Uri.Decode(m.groups[2])
    case None => Failure(MalformedUri(m.groups[2]))
    case Some(filename) => Export.Embed(vault, content, m.groups[0], filename, m.groups[1])
  }

  function LegacyRewriter(p: Pattern, vault: Export.Vault): (string, Match) -> Result<string, Failure>
    requires p == WikiImage || p == LinkImage
  {
    (content: string, m: Match) =>
      if |m.groups| != GroupCount(p) then Success(content)
      else if p == WikiImage then LegacyWiki(vault, content, m)
      else LegacyNormal(vault, content, m)
  }

  /** convertAndCopyToClipboard of `main.ts`: the wiki pass, then the link
      pass over its output. */
  function LegacyConvert(vault: Export.Vault, view: Option<string>, fuel: nat): Completion<Option<string>> {
    match view
    case None => Resolved(None)
    case Some(data) =>
      var wiki := Export.ImageScan(WikiImage, LegacyRewriter(WikiImage, vault), data, 0, fuel);
      if !wiki.Resolved? then Export.Lift(wiki)
      else Export.Lift(Export.ImageScan(LinkImage, LegacyRewriter(LinkImage, vault), wiki.value, 0, fuel))
  }

  /** convertAndCopyToClipboard of `main.ts`, with its two `exec` loops. */
  method LegacyConvertAndCopyToClipboard(vault: Export.Vault, view: Option<string>, fuel: nat)
    returns (r: Completion<Option<string>>)
    ensures r == LegacyConvert(vault, view, fuel)
  {
    if view.None? {
      return Resolved(None);
    }
    var wiki := Export.RewriteImages(WikiImage, LegacyRewriter(WikiImage, vault), view.value, fuel);
    if !wiki.Resolved? {
      return Export.Lift(wiki);
    }
    var links := Export.RewriteImages(LinkImage, LegacyRewriter(LinkImage, vault), wiki.value, fuel);
    return Export.Lift(links);
  }

  /** The old rewrites are the new ones with descriptions kept. */
  lemma LegacyKeepsDescriptions(p: Pattern, vault: Export.Vault, content: string, m: Match)
    requires p == WikiImage || p == LinkImage
    ensures LegacyRewriter(p, vault)(content, m) == Export.Rewriter(p, vault, true)(content, m)
  {
  }

  /** Two scans whose rewrites agree on every text and match agree. */
  lemma {:induction false} ImageScanSameRewrite(p: Pattern, r1: (string, Match) -> Result<string, Failure>,
                                                r2: (string, Match) -> Result<string, Failure>,
                                                content: string, from: nat, fuel: nat)
    requires forall s, m :: r1(s, m) == r2(s, m)
    ensures Export.ImageScan(p, r1, content, from, fuel) == Export.ImageScan(p, r2, content, from, fuel)
    decreases fuel
  {
    match FindFrom(p, content, from)
    case None =>
    case Some(m) =>
      if fuel > 0 && r1(content, m).Success? {
        ImageScanSameRewrite(p, r1, r2, r1(content, m).value, End(m), fuel - 1);
      }
  }

  /** On a note holding no plantuml fence, the current command with
      descriptions kept produces what the old one produced. */
  lemma LegacyAgrees(settings: Settings, diagrams: Export.Diagrams, vault: Export.Vault, data: string,
                     cache: map<string, string>, fuel: nat)
    requires settings.needImageDesc
    requires forall i: nat, tag, body :: !IsFence(data, i, tag, body)
    ensures Export.Convert(settings, diagrams, vault, Some(data), cache, fuel) == (LegacyConvert(vault, Some(data), fuel), cache)
  {
    NoFenceFound(data, 0);
    forall s, m
      ensures LegacyRewriter(WikiImage, vault)(s, m) == Export.Rewriter(WikiImage, vault, true)(s, m)
    {
      LegacyKeepsDescriptions(WikiImage, vault, s, m);
    }
    forall s, m
      ensures LegacyRewriter(LinkImage, vault)(s, m) == Export.Rewriter(LinkImage, vault, true)(s, m)
    {
      LegacyKeepsDescriptions(LinkImage, vault, s, m);
    }
    ImageScanSameRewrite(WikiImage, LegacyRewriter(WikiImage, vault), Export.Rewriter(WikiImage, vault, true), data, 0, fuel);
    var wiki := Export.ImageScan(WikiImage, LegacyRewriter(WikiImage, vault), data, 0, fuel);
    if wiki.Resolved? {
      ImageScanSameRewrite(LinkImage, LegacyRewriter(LinkImage, vault), Export.Rewriter(LinkImage, vault, true), wiki.value, 0, fuel);
    }
  }

  /** A note holding no wiki image embed and no image link is copied
      unchanged. */
  lemma LegacyNoPattern(vault: Export.Vault, data: string, fuel: nat)
    requires forall i: nat, stem, ext :: !IsWiki(data, i, stem, ext)
    requires forall i: nat, alt, stem, ext :: !IsLink(data, i, alt, stem, ext)
    ensures LegacyConvert(vault, Some(data), fuel) == Resolved(Some(data))
  {
    NoWikiFound(data, 0);
    NoLinkFound(data, 0);
  }

  /** A note without "![" is copied unchanged. */
  lemma LegacyPlain(vault: Export.Vault, data: string, fuel: nat)
    requires forall k :: 0 <= k <= |data| ==> !StartsAt(data, k, "![")
    ensures LegacyConvert(vault, Some(data), fuel) == Resolved(Some(data))
  {
    forall k | 0 <= k <= |data|
      ensures !StartsAt(data, k, "![[")
    {
      StartsAtConcat(data, k, "![", "[");
    }
    FindFromAbsent(WikiImage, data, 0);
    FindFromAbsent(LinkImage, data, 0);
  }

  /** What the old link rewrite makes of the link `m` whose text first
      occurs at `k`: an undecodable path or an unreadable file is an error,
      otherwise the occurrence becomes `![alt](data:image/png;base64,B)`. */
  predicate LinkOutcome(vault: Export.Vault, content: string, m: Match, k: nat) {
    |m.groups| == 4 && k + |m.groups[0]| <= |content| &&
    match Uri.Decode(m.groups[2])
    case None => LegacyNormal(vault, content, m) == Failure(MalformedUri(m.groups[2]))
    case Some(f) =>
      var path := Export.ImagePath(vault, f);
      match vault.readFile(path)
      case None => LegacyNormal(vault, content, m) == Failure(ReadFailed(path))
      case Some(bytes) =>
        LegacyNormal(vault, content, m)
          == Success(content[..k] + Export.ImageMarkdown(m.groups[1], bytes) + content[k + |m.groups[0]|..])
  }

  /** What the old wiki rewrite makes of the embed `m` whose text first
      occurs at `k`: the occurrence becomes `![f](data:image/png;base64,B)`
      with the decoded name `f` (when `f` holds no `$`). */
  predicate WikiOutcome(vault: Export.Vault, content: string, m: Match, k: nat) {
    |m.groups| == 3 && k + |m.groups[0]| <= |content| &&
    match Uri.Decode(m.groups[1])
    case None => LegacyWiki(vault, content, m) == Failure(MalformedUri(m.groups[1]))
    case Some(f) =>
      var path := Export.ImagePath(vault, f);
      match vault.readFile(path)
      case None => LegacyWiki(vault, content, m) == Failure(ReadFailed(path))
      case Some(bytes) =>
        '$' !in f ==>
          LegacyWiki(vault, content, m)
            == Success(content[..k] + Export.ImageMarkdown(f, bytes) + content[k + |m.groups[0]|..])
  }

  /** A standard link found by the old command always keeps its alternative
      text: its first occurrence becomes `![alt](data:image/png;base64,B)`. */
  lemma LegacyLinkKeepsAlt(vault: Export.Vault, content: string, from: nat, m: Match)
    requires FindFrom(LinkImage, content, from) == Some(m)
    requires '$' !in m.groups[1]
    ensures IndexOf(content, m.groups[0], 0).Some? && IndexOf(content, m.groups[0], 0).value <= m.index
    ensures LinkOutcome(vault, content, m, IndexOf(content, m.groups[0], 0).value)
  {
    Export.FirstOccurrence(LinkImage, content, from, m);
    LegacyLinkSplices(vault, content, m, IndexOf(content, m.groups[0], 0).value);
  }

  lemma LegacyLinkSplices(vault: Export.Vault, content: string, m: Match, k: nat)
    requires |m.groups| == 4 && IndexOf(content, m.groups[0], 0) == Some(k)
    requires '$' !in m.groups[1]
    ensures LinkOutcome(vault, content, m, k)
  {
    match Uri.Decode(m.groups[2])
    case None =>
    case Some(f) =>
      Export.EmbedSplices(vault, content, m.groups[0], f, m.groups[1], k);
  }

  /** A wiki embed found by the old command always has its decoded name as
      description. */
  lemma LegacyWikiNamesImage(vault: Export.Vault, content: string, from: nat, m: Match)
    requires FindFrom(WikiImage, content, from) == Some(m)
    ensures IndexOf(content, m.groups[0], 0).Some? && IndexOf(content, m.groups[0], 0).value <= m.index
    ensures WikiOutcome(vault, content, m, IndexOf(content, m.groups[0], 0).value)
  {
    Export.FirstOccurrence(WikiImage, content, from, m);
    LegacyWikiSplices(vault, content, m, IndexOf(content, m.groups[0], 0).value);
  }

  lemma LegacyWikiSplices(vault: Export.Vault, content: string, m: Match, k: nat)
    requires |m.groups| == 3 && IndexOf(content, m.groups[0], 0) == Some(k)
    ensures WikiOutcome(vault, content, m, k)
  {
    match Uri.Decode(m.groups[1])
    case None =>
    case Some(f) =>
      if '$' !in f {
        Export.EmbedSplices(vault, content, m.groups[0], f, f, k);
      }
  }
}
