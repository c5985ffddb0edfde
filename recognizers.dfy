/** Hand-written recognizers for the four regular expressions of the
    plugin, each stated against a declarative description of what the
    expression accepts, with JavaScript's semantics for lazy quantifiers,
    alternatives and `.` (no line terminators):

      Fence      /```(puml|plantuml|puml-svg)\n([\s\S]*?)\n```/g
      WikiImage  /!\[\[(.+?\.(png|jpg|jpeg))\]\]/g
      LinkImage  /\!\[(.*?)\]\((.+?\.(jpg|png|jpeg))\)/g
      Bold       /(\*\*[^\*]+\*\*)/g
*/
module Recognizers {
  import opened Wrappers
  import opened JsString

  datatype Pattern = Fence | WikiImage | LinkImage | Bold

  /** A RegExpExecArray: the offset of the match and `match[0]`,
      `match[1]`, ... (`groups[0]` is the whole matched text). */
  datatype Match = Match(index: nat, groups: seq<string>)

  function GroupCount(p: Pattern): nat {
    match p
    case Fence => 3
    case WikiImage => 3
    case LinkImage => 4
    case Bold => 2
  }

  /** The offset just past a match, which `exec` stores in `lastIndex`. */
  function End(m: Match): nat
    requires |m.groups| > 0
  {
    m.index + |m.groups[0]|
  }

  /** The characters `.` does not match. */
  predicate IsLineTerminator(c: char) {
    c == '\n' || c == '\r' || c == '\U{2028}' || c == '\U{2029}'
  }

  predicate NoLineTerminator(t: string) {
    forall k :: 0 <= k < |t| ==> !IsLineTerminator(t[k])
  }

  lemma StartsAtConcat(s: string, i: nat, a: string, b: string)
    ensures StartsAt(s, i, a + b) <==> StartsAt(s, i, a) && StartsAt(s, i + |a|, b)
  {
    if StartsAt(s, i, a) && StartsAt(s, i + |a|, b) {
      assert s[i..i + |a + b|] == s[i..i + |a|] + s[i + |a|..i + |a| + |b|];
    }
    if StartsAt(s, i, a + b) {
      assert s[i..i + |a|] == (a + b)[..|a|];
      assert s[i + |a|..i + |a| + |b|] == (a + b)[|a|..];
    }
  }

  lemma StartsAtSlice(s: string, i: nat, j: nat)
    requires i <= j <= |s|
    ensures StartsAt(s, i, s[i..j])
  {
  }

  // -------------------------------------------------------------------
  // Diagram fences

  const FenceTags: seq<string> := ["puml", "plantuml", "puml-svg"]

  /** The first tag alternative that is followed by a newline at `j`. */
  function FenceTagAt(s: string, j: nat): (r: Option<string>)
    ensures r.Some? ==> r.value in FenceTags && StartsAt(s, j, r.value + "\n")
    ensures r.None? ==> forall t :: t in FenceTags ==> !StartsAt(s, j, t + "\n")
  {
    if StartsAt(s, j, "puml\n") then Some("puml")
    else if StartsAt(s, j, "plantuml\n") then Some("plantuml")
    else if StartsAt(s, j, "puml-svg\n") then Some("puml-svg")
    else None
  }

  /** At most one tag alternative can be followed by a newline. */
  lemma FenceTagUnique(s: string, j: nat, t1: string, t2: string)
    requires t1 in FenceTags && t2 in FenceTags
    requires StartsAt(s, j, t1 + "\n") && StartsAt(s, j, t2 + "\n")
    ensures t1 == t2
  {
    // The second and fifth characters tell the three alternatives apart.
    assert s[j + 1] == (t1 + "\n")[1] == (t2 + "\n")[1];
    assert s[j + 4] == (t1 + "\n")[4] == (t2 + "\n")[4];
  }

  /** The text at `i` reads "```" tag "\n" body "\n```". */
  predicate IsFence(s: string, i: nat, tag: string, body: string) {
    tag in FenceTags && StartsAt(s, i, "```" + tag + "\n" + body + "\n```")
  }

  lemma IsFenceParts(s: string, i: nat, tag: string, body: string)
    ensures IsFence(s, i, tag, body) <==>
      tag in FenceTags && StartsAt(s, i, "```") && StartsAt(s, i + 3, tag + "\n")
      && StartsAt(s, i + 4 + |tag|, body) && StartsAt(s, i + 4 + |tag| + |body|, "\n```")
  {
    StartsAtConcat(s, i, "```" + tag + "\n" + body, "\n```");
    StartsAtConcat(s, i, "```" + tag + "\n", body);
    StartsAtConcat(s, i, "```", tag + "\n");
    assert "```" + tag + "\n" == "```" + (tag + "\n");
  }

  function FenceAt(s: string, i: nat): Option<Match> {
    if !StartsAt(s, i, "```") then None
    else
      match FenceTagAt(s, i + 3)
      case None => None
      case Some(tag) =>
        var b := i + 4 + |tag|;
        match IndexOf(s, "\n```", b)
        case None => None
        case Some(k) => Some(Match(i, [s[i..k + 4], tag, s[b..k]]))
  }

  /** Whatever `FenceAt` returns is a fence starting at `i`, split into
      the groups of the expression. */
  lemma FenceAtSound(s: string, i: nat)
    requires FenceAt(s, i).Some?
    ensures var m := FenceAt(s, i).value;
      && m.index == i && |m.groups| == 3
      && IsFence(s, i, m.groups[1], m.groups[2])
      && m.groups[0] == "```" + m.groups[1] + "\n" + m.groups[2] + "\n```"
  {
    var m := FenceAt(s, i).value;
    var tag := FenceTagAt(s, i + 3).value;
    var b := i + 4 + |tag|;
    var k := IndexOf(s, "\n```", b).value;
    assert m.groups == [s[i..k + 4], tag, s[b..k]];
    StartsAtSlice(s, b, k);
    IsFenceParts(s, i, tag, s[b..k]);
    assert IsFence(s, i, tag, s[b..k]);
    assert s[i..k + 4] == "```" + tag + "\n" + s[b..k] + "\n```";
  }

  /** Whenever a fence starts at `i`, `FenceAt` finds one, with the same
      tag and the shortest body: the lazy `[\s\S]*?` stops at the first
      "\n```". */
  lemma FenceAtComplete(s: string, i: nat, tag: string, body: string)
    requires IsFence(s, i, tag, body)
    ensures FenceAt(s, i).Some?
    ensures FenceAt(s, i).value.groups[1] == tag
    ensures |FenceAt(s, i).value.groups[2]| <= |body|
  {
    IsFenceParts(s, i, tag, body);
    var t := FenceTagAt(s, i + 3).value;
    FenceTagUnique(s, i + 3, t, tag);
    var b := i + 4 + |tag|;
    assert StartsAt(s, b + |body|, "\n```");
    var k := IndexOf(s, "\n```", b).value;
    assert k <= b + |body|;
  }

  // -------------------------------------------------------------------
  // Lazy quantifiers and extension alternatives

  /** A lazy `.*?` that starts at `from` and has consumed up to `j`: the
      least stop `k >= j`, with no line terminator in `s[from..k]`, at
      which the rest of the expression (`accept`) succeeds
      (see `LazyLeast`). */
  function Lazy(s: string, from: nat, j: nat, accept: nat -> bool): (r: Option<nat>)
    requires from <= j <= |s|
    requires NoLineTerminator(s[from..j])
    decreases |s| - j
    ensures r.Some? ==> j <= r.value <= |s| && NoLineTerminator(s[from..r.value]) && accept(r.value)
  {
    if accept(j) then Some(j)
    else if j < |s| && !IsLineTerminator(s[j]) then
      assert s[from..j + 1] == s[from..j] + [s[j]];
      Lazy(s, from, j + 1, accept)
    else None
  }

  /** Any stop `k` the rest of the expression accepts bounds the stop the
      lazy quantifier takes. */
  lemma {:induction false} LazyLeast(s: string, from: nat, j: nat, accept: nat -> bool, k: nat)
    requires from <= j <= k <= |s|
    requires NoLineTerminator(s[from..j]) && NoLineTerminator(s[from..k]) && accept(k)
    ensures Lazy(s, from, j, accept).Some?
    ensures Lazy(s, from, j, accept).value <= k
    decreases k - j
  {
    if !accept(j) {
      assert s[j] == s[from..k][j - from];
      assert s[from..j + 1] == s[from..k][..j + 1 - from];
      LazyLeast(s, from, j + 1, accept, k);
    }
  }

  /** A lazy quantifier started at `from` stops at or before any stop `k`
      the rest accepts. */
  lemma LazyFirst(s: string, from: nat, accept: nat -> bool, k: nat)
    requires from <= k <= |s| && NoLineTerminator(s[from..k]) && accept(k)
    ensures Lazy(s, from, from, accept).Some? && Lazy(s, from, from, accept).value <= k
  {
    assert s[from..from] == [];
    LazyLeast(s, from, from, accept, k);
  }

  /** The first extension alternative `e` such that "." e `close` follows at `k`. */
  function ExtAt(s: string, k: nat, exts: seq<string>, close: string): (r: Option<string>)
    decreases |exts|
    ensures r.Some? ==> r.value in exts && StartsAt(s, k, "." + r.value + close)
  {
    if |exts| == 0 then None
    else if StartsAt(s, k, "." + exts[0] + close) then Some(exts[0])
    else ExtAt(s, k, exts[1..], close)
  }

  /** Some alternative is found whenever one fits. */
  lemma {:induction false} ExtAtComplete(s: string, k: nat, exts: seq<string>, close: string, e: string)
    requires e in exts && StartsAt(s, k, "." + e + close)
    ensures ExtAt(s, k, exts, close).Some?
    decreases |exts|
  {
    if e != exts[0] {
      ExtAtComplete(s, k, exts[1..], close, e);
    }
  }

  /** The rest of an embed after its stem: "." ext "]]". */
  function WikiRest(s: string): nat -> bool {
    (k: nat) => ExtAt(s, k, WikiExts, "]]").Some?
  }

  /** The rest of an image link after its path stem: "." ext ")". */
  function PathRest(s: string): nat -> bool {
    (k: nat) => ExtAt(s, k, LinkExts, ")").Some?
  }

  /** The rest of an image link after its alternative text. */
  function AltRest(s: string): nat -> bool {
    (a: nat) => PathStop(s, a).Some?
  }

  lemma StartsAtPrefix(s: string, k: nat, pat: string, n: nat)
    requires StartsAt(s, k, pat) && n <= |pat|
    ensures StartsAt(s, k, pat[..n])
  {
    assert s[k..k + n] == s[k..k + |pat|][..n];
  }

  /** The part of a file name in front of "." ext. */
  function StemOf(file: string, ext: string): string
    requires |ext| < |file|
  {
    file[..|file| - |ext| - 1]
  }

  /** The parts of "open" stem "." ext "close" at `i`. */
  lemma NameParts(s: string, i: nat, open: string, stem: string, ext: string, close: string)
    ensures StartsAt(s, i, open + stem + "." + ext + close) <==>
      StartsAt(s, i, open) && StartsAt(s, i + |open|, stem) && StartsAt(s, i + |open| + |stem|, "." + ext + close)
  {
    assert open + stem + "." + ext + close == open + (stem + ("." + ext + close));
    StartsAtConcat(s, i, open, stem + ("." + ext + close));
    StartsAtConcat(s, i + |open|, stem, "." + ext + close);
  }

  /** The text from `i` up to an extension found at `k` splits into the
      opening, the stem and "." ext close. */
  lemma NameSlices(s: string, i: nat, open: string, k: nat, e: string, close: string)
    requires i + |open| <= k
    requires StartsAt(s, i, open) && StartsAt(s, k, "." + e + close)
    ensures s[i + |open|..k + 1 + |e|] == s[i + |open|..k] + "." + e
    ensures StartsAt(s, i, open + s[i + |open|..k] + "." + e + close)
    ensures s[i..k + 1 + |e| + |close|] == open + s[i + |open|..k] + "." + e + close
  {
    var stem := s[i + |open|..k];
    StartsAtPrefix(s, k, "." + e + close, |e| + 1);
    assert ("." + e + close)[..|e| + 1] == "." + e;
    StartsAtSlice(s, i + |open|, k);
    NameParts(s, i, open, stem, e, close);
    assert s[i + |open|..k + 1 + |e|] == s[i + |open|..k] + s[k..k + 1 + |e|];
  }

  lemma StemOfName(stem: string, e: string)
    ensures |e| < |stem + "." + e|
    ensures StemOf(stem + "." + e, e) == stem
  {
  }

  // -------------------------------------------------------------------
  // Wiki-style image embeds

  const WikiExts: seq<string> := ["png", "jpg", "jpeg"]

  /** The text at `i` reads "![[" stem "." ext "]]", the stem non-empty and
      free of line terminators. */
  predicate IsWiki(s: string, i: nat, stem: string, ext: string) {
    |stem| > 0 && NoLineTerminator(stem) && ext in WikiExts
    && StartsAt(s, i, "![[" + stem + "." + ext + "]]")
  }

  function WikiAt(s: string, i: nat): (r: Option<Match>)
    ensures r.Some? ==> r.value.index == i && |r.value.groups| == 3
    ensures r.Some? ==> |r.value.groups[0]| > 0 && StartsAt(s, i, r.value.groups[0])
  {
    if !StartsAt(s, i, "![[") || i + 3 >= |s| || IsLineTerminator(s[i + 3]) then None
    else
      match Lazy(s, i + 3, i + 4, WikiRest(s))
      case None => None
      case Some(k) => Some(WikiMatch(s, i, k, ExtAt(s, k, WikiExts, "]]").value))
  }

  /** The groups of an embed whose stem ends at `k`, followed by "." e "]]". */
  function WikiMatch(s: string, i: nat, k: nat, e: string): (m: Match)
    requires i + 3 <= k && k + |e| + 3 <= |s|
    ensures m.index == i && |m.groups| == 3 && |m.groups[0]| > 0
    ensures StartsAt(s, i, m.groups[0])
    ensures |m.groups[1]| == k + 1 + |e| - i - 3 && m.groups[2] == e
  {
    Match(i, [s[i..k + |e| + 3], s[i + 3..k + 1 + |e|], e])
  }

  lemma WikiMatchSound(s: string, i: nat, k: nat, e: string)
    requires e in WikiExts && StartsAt(s, k, "." + e + "]]")
    requires i + 3 < k && StartsAt(s, i, "![[") && NoLineTerminator(s[i + 3..k])
    ensures var m := WikiMatch(s, i, k, e);
      && |m.groups[2]| < |m.groups[1]|
      && IsWiki(s, i, StemOf(m.groups[1], m.groups[2]), m.groups[2])
      && m.groups[1] == StemOf(m.groups[1], m.groups[2]) + "." + m.groups[2]
      && m.groups[0] == "![[" + m.groups[1] + "]]"
  {
    NameSlices(s, i, "![[", k, e, "]]");
    StemOfName(s[i + 3..k], e);
    Reassociate("![[", s[i + 3..k], ".", e, "]]");
  }

  /** Whatever `WikiAt` returns is an embed starting at `i`: `groups[1]` is
      the file name stem "." ext and `groups[2]` the extension. */
  lemma WikiAtSound(s: string, i: nat)
    requires WikiAt(s, i).Some?
    ensures var m := WikiAt(s, i).value;
      && |m.groups| == 3 && |m.groups[2]| < |m.groups[1]|
      && IsWiki(s, i, StemOf(m.groups[1], m.groups[2]), m.groups[2])
      && m.groups[1] == StemOf(m.groups[1], m.groups[2]) + "." + m.groups[2]
      && m.groups[0] == "![[" + m.groups[1] + "]]"
  {
    var k := Lazy(s, i + 3, i + 4, WikiRest(s)).value;
    var e := ExtAt(s, k, WikiExts, "]]").value;
    assert WikiAt(s, i) == Some(WikiMatch(s, i, k, e));
    WikiMatchSound(s, i, k, e);
  }

  /** Whenever an embed starts at `i`, `WikiAt` finds one, and its stem is
      the shortest: `.+?` is lazy. */
  lemma WikiAtComplete(s: string, i: nat, stem: string, ext: string)
    requires IsWiki(s, i, stem, ext)
    ensures WikiAt(s, i).Some?
    ensures var m := WikiAt(s, i).value;
      |m.groups[2]| < |m.groups[1]| && |StemOf(m.groups[1], m.groups[2])| <= |stem|
  {
    WikiStemLeast(s, i, stem, ext);
    var k := Lazy(s, i + 3, i + 4, WikiRest(s)).value;
    var e := ExtAt(s, k, WikiExts, "]]").value;
    assert WikiAt(s, i) == Some(WikiMatch(s, i, k, e));
  }

  lemma WikiStemLeast(s: string, i: nat, stem: string, ext: string)
    requires IsWiki(s, i, stem, ext)
    ensures StartsAt(s, i, "![[") && i + 3 < |s| && !IsLineTerminator(s[i + 3])
    ensures NoLineTerminator(s[i + 3..i + 4])
    ensures Lazy(s, i + 3, i + 4, WikiRest(s)).Some?
    ensures Lazy(s, i + 3, i + 4, WikiRest(s)).value <= i + 3 + |stem|
  {
    NameParts(s, i, "![[", stem, ext, "]]");
    var k := i + 3 + |stem|;
    assert s[i + 3..k] == stem;
    ExtAtComplete(s, k, WikiExts, "]]", ext);
    assert WikiRest(s)(k);
    assert s[i + 3..i + 4] == [s[i + 3]] && s[i + 3] == stem[0];
    LazyLeast(s, i + 3, i + 4, WikiRest(s), k);
  }

  // -------------------------------------------------------------------
  // Markdown image links

  const LinkExts: seq<string> := ["jpg", "png", "jpeg"]

  /** The text at `a` reads "](" stem "." ext ")", the stem non-empty and
      free of line terminators. */
  predicate IsPath(s: string, a: nat, stem: string, ext: string) {
    |stem| > 0 && NoLineTerminator(stem) && ext in LinkExts
    && StartsAt(s, a, "](" + stem + "." + ext + ")")
  }

  /** The text at `i` reads "![" alt "](" stem "." ext ")", with no line
      terminator in alt. */
  predicate IsLink(s: string, i: nat, alt: string, stem: string, ext: string) {
    NoLineTerminator(alt) && StartsAt(s, i, "![" + alt) && IsPath(s, i + 2 + |alt|, stem, ext)
  }

  /** With the alternative text ending at `a`, the stop of the lazy `.+?`
      of the path `\((.+?\.(jpg|png|jpeg))\)`. */
  function PathStop(s: string, a: nat): (r: Option<nat>)
    ensures r.Some? ==> StartsAt(s, a, "](") && a + 3 <= r.value <= |s|
    ensures r.Some? ==> NoLineTerminator(s[a + 2..r.value]) && ExtAt(s, r.value, LinkExts, ")").Some?
  {
    if StartsAt(s, a, "](") && a + 2 < |s| && !IsLineTerminator(s[a + 2]) then
      Lazy(s, a + 2, a + 3, PathRest(s))
    else None
  }

  lemma PathStopSound(s: string, a: nat)
    requires PathStop(s, a).Some?
    ensures var k := PathStop(s, a).value;
      var e := ExtAt(s, k, LinkExts, ")").value;
      && IsPath(s, a, s[a + 2..k], e)
      && s[a + 2..k + 1 + |e|] == s[a + 2..k] + "." + e
      && s[a..k + |e| + 2] == "](" + s[a + 2..k] + "." + e + ")"
  {
    var k := PathStop(s, a).value;
    var e := ExtAt(s, k, LinkExts, ")").value;
    NameSlices(s, a, "](", k, e, ")");
  }

  lemma PathStopComplete(s: string, a: nat, stem: string, ext: string)
    requires IsPath(s, a, stem, ext)
    ensures PathStop(s, a).Some? && PathStop(s, a).value <= a + 2 + |stem|
  {
    NameParts(s, a, "](", stem, ext, ")");
    var k := a + 2 + |stem|;
    assert s[a + 2..k] == stem;
    ExtAtComplete(s, k, LinkExts, ")", ext);
    assert PathRest(s)(k);
    assert s[a + 2..a + 3] == [s[a + 2]] && s[a + 2] == stem[0];
    LazyLeast(s, a + 2, a + 3, PathRest(s), k);
  }

  function LinkAt(s: string, i: nat): (r: Option<Match>)
    ensures r.Some? ==> r.value.index == i && |r.value.groups| == 4
    ensures r.Some? ==> |r.value.groups[0]| > 0 && StartsAt(s, i, r.value.groups[0])
  {
    if !StartsAt(s, i, "![") then None
    else
      match Lazy(s, i + 2, i + 2, AltRest(s))
      case None => None
      case Some(a) =>
        var k := PathStop(s, a).value;
        Some(LinkMatch(s, i, a, k, ExtAt(s, k, LinkExts, ")").value))
  }

  /** The groups of an image link whose alternative text ends at `a` and
      whose path stem ends at `k`, followed by "." e ")". */
  function LinkMatch(s: string, i: nat, a: nat, k: nat, e: string): (m: Match)
    requires i + 2 <= a && a + 2 <= k && k + |e| + 2 <= |s|
    ensures m.index == i && |m.groups| == 4 && |m.groups[0]| > 0
    ensures StartsAt(s, i, m.groups[0])
    ensures |m.groups[1]| == a - i - 2 && m.groups[3] == e
    ensures |m.groups[2]| == k - a - 1 + |e|
  {
    Match(i, [s[i..k + |e| + 2], s[i + 2..a], s[a + 2..k + 1 + |e|], e])
  }

  lemma LinkMatchSound(s: string, i: nat, a: nat, k: nat, e: string)
    requires i + 2 <= a && a + 2 <= k && k + |e| + 2 <= |s|
    requires StartsAt(s, i, "![") && NoLineTerminator(s[i + 2..a]) && IsPath(s, a, s[a + 2..k], e)
    requires s[a + 2..k + 1 + |e|] == s[a + 2..k] + "." + e
    requires s[a..k + |e| + 2] == "](" + s[a + 2..k] + "." + e + ")"
    ensures var m := LinkMatch(s, i, a, k, e);
      && |m.groups[3]| < |m.groups[2]|
      && IsLink(s, i, m.groups[1], StemOf(m.groups[2], m.groups[3]), m.groups[3])
      && m.groups[2] == StemOf(m.groups[2], m.groups[3]) + "." + m.groups[3]
      && m.groups[0] == "![" + m.groups[1] + "](" + m.groups[2] + ")"
  {
    var alt, stem := s[i + 2..a], s[a + 2..k];
    StemOfName(stem, e);
    StartsAtSlice(s, i + 2, a);
    StartsAtConcat(s, i, "![", alt);
    WholeLink(s, i, a, k + |e| + 2, "](" + stem + "." + e + ")");
    Reassociate("![", alt, "](", stem + "." + e, ")");
  }

  /** The text of a whole link is "![", the alternative text, and the rest. */
  lemma WholeLink(s: string, i: nat, a: nat, n: nat, rest: string)
    requires i + 2 <= a <= n <= |s| && StartsAt(s, i, "![") && s[a..n] == rest
    ensures s[i..n] == "![" + s[i + 2..a] + rest
  {
    assert s[i..n] == s[i..i + 2] + s[i + 2..a] + s[a..n];
  }

  lemma Reassociate(p: string, q: string, r: string, t: string, u: string)
    ensures p + q + (r + t + u) == p + q + r + t + u
  {
  }

  /** Whatever `LinkAt` returns is an image link starting at `i`:
      `groups[1]` is the alternative text, `groups[2]` the path and
      `groups[3]` the extension. */
  lemma LinkAtSound(s: string, i: nat)
    requires LinkAt(s, i).Some?
    ensures var m := LinkAt(s, i).value;
      && |m.groups| == 4 && |m.groups[3]| < |m.groups[2]|
      && IsLink(s, i, m.groups[1], StemOf(m.groups[2], m.groups[3]), m.groups[3])
      && m.groups[2] == StemOf(m.groups[2], m.groups[3]) + "." + m.groups[3]
      && m.groups[0] == "![" + m.groups[1] + "](" + m.groups[2] + ")"
  {
    var a := Lazy(s, i + 2, i + 2, AltRest(s)).value;
    var k := PathStop(s, a).value;
    var e := ExtAt(s, k, LinkExts, ")").value;
    assert LinkAt(s, i) == Some(LinkMatch(s, i, a, k, e));
    PathStopSound(s, a);
    LinkMatchSound(s, i, a, k, e);
  }

  /** Whenever an image link starts at `i`, `LinkAt` finds one; its
      alternative text is the shortest possible and, for that text, its
      path stem is the shortest: both quantifiers are lazy. */
  lemma LinkAtComplete(s: string, i: nat, alt: string, stem: string, ext: string)
    requires IsLink(s, i, alt, stem, ext)
    ensures LinkAt(s, i).Some?
    ensures var m := LinkAt(s, i).value;
      && |m.groups[3]| < |m.groups[2]|
      && |m.groups[1]| <= |alt|
      && (|m.groups[1]| == |alt| ==> |StemOf(m.groups[2], m.groups[3])| <= |stem|)
  {
    LinkAltLeast(s, i, alt, stem, ext);
    var a := Lazy(s, i + 2, i + 2, AltRest(s)).value;
    var k := PathStop(s, a).value;
    var e := ExtAt(s, k, LinkExts, ")").value;
    assert LinkAt(s, i) == Some(LinkMatch(s, i, a, k, e));
  }

  lemma LinkAltLeast(s: string, i: nat, alt: string, stem: string, ext: string)
    requires IsLink(s, i, alt, stem, ext)
    ensures StartsAt(s, i, "![") && i + 2 <= |s|
    ensures Lazy(s, i + 2, i + 2, AltRest(s)).Some?
    ensures var a := Lazy(s, i + 2, i + 2, AltRest(s)).value;
      a <= i + 2 + |alt| && (a == i + 2 + |alt| ==> PathStop(s, a).value <= a + 2 + |stem|)
  {
    AltOf(s, i, alt);
    var a := i + 2 + |alt|;
    PathStopComplete(s, a, stem, ext);
    assert AltRest(s)(a);
    LazyFirst(s, i + 2, AltRest(s), a);
    var l := Lazy(s, i + 2, i + 2, AltRest(s)).value;
    assert l == a ==> PathStop(s, l) == PathStop(s, a);
  }

  /** The alternative text of a link is the text after its "![". */
  lemma AltOf(s: string, i: nat, alt: string)
    requires StartsAt(s, i, "![" + alt)
    ensures StartsAt(s, i, "![") && i + 2 + |alt| <= |s| && s[i + 2..i + 2 + |alt|] == alt
  {
    StartsAtConcat(s, i, "![", alt);
  }

  // -------------------------------------------------------------------
  // Bold spans

  /** The text at `i` reads "**" inner "**" with a non-empty inner part
      free of `*`. */
  predicate IsBold(s: string, i: nat, inner: string) {
    |inner| > 0 && '*' !in inner && StartsAt(s, i, "**" + inner + "**")
  }

  function BoldAt(s: string, i: nat): (r: Option<Match>)
    ensures r.Some? ==> r.value.index == i && |r.value.groups| == 2
    ensures r.Some? ==> |r.value.groups[0]| > 0 && StartsAt(s, i, r.value.groups[0])
  {
    if !StartsAt(s, i, "**") then None
    else
      match IndexOf(s, "*", i + 2)
      case None => None
      case Some(k) =>
        if i + 2 < k && StartsAt(s, k, "**") then Some(Match(i, [s[i..k + 2], s[i..k + 2]]))
        else None
  }

  /** Whatever `BoldAt` returns is a bold span starting at `i`, and both
      groups are the whole span. */
  lemma BoldAtSound(s: string, i: nat)
    requires BoldAt(s, i).Some?
    ensures var m := BoldAt(s, i).value;
      && |m.groups| == 2 && |m.groups[0]| >= 4 && m.groups[1] == m.groups[0]
      && IsBold(s, i, m.groups[0][2..|m.groups[0]| - 2])
  {
    var m := BoldAt(s, i).value;
    var k := IndexOf(s, "*", i + 2).value;
    var inner := s[i + 2..k];
    assert m.groups == [s[i..k + 2], s[i..k + 2]];
    forall j | 0 <= j < |inner|
      ensures inner[j] != '*'
    {
      assert !StartsAt(s, i + 2 + j, "*");
      assert s[i + 2 + j..i + 3 + j] == [inner[j]];
    }
    StartsAtSlice(s, i + 2, k);
    BoldParts(s, i, inner);
    assert s[i..k + 2] == "**" + inner + "**";
    assert m.groups[0][2..|m.groups[0]| - 2] == inner;
  }

  /** Whenever a bold span starts at `i`, `BoldAt` finds exactly that one:
      the greedy `[^\*]+` leaves no choice. */
  lemma BoldAtComplete(s: string, i: nat, inner: string)
    requires IsBold(s, i, inner)
    ensures BoldAt(s, i) == Some(Match(i, ["**" + inner + "**", "**" + inner + "**"]))
  {
    BoldParts(s, i, inner);
    var k := i + 2 + |inner|;
    forall j | i + 2 <= j < k
      ensures !StartsAt(s, j, "*")
    {
      assert s[j] == inner[j - i - 2];
    }
    StartsAtPrefix(s, k, "**", 1);
    assert "**"[..1] == "*";
    assert StartsAt(s, k, "*");
    assert IndexOf(s, "*", i + 2) == Some(k);
    assert s[i..k + 2] == "**" + inner + "**";
  }

  lemma BoldParts(s: string, i: nat, inner: string)
    ensures StartsAt(s, i, "**" + inner + "**") <==>
      StartsAt(s, i, "**") && StartsAt(s, i + 2, inner) && StartsAt(s, i + 2 + |inner|, "**")
  {
    StartsAtConcat(s, i, "**" + inner, "**");
    StartsAtConcat(s, i, "**", inner);
  }

  // -------------------------------------------------------------------
  // Searching

  /** The literal text every match of the pattern starts with. */
  function Opening(p: Pattern): string {
    match p
    case Fence => "```"
    case WikiImage => "![["
    case LinkImage => "!["
    case Bold => "**"
  }

  function MatchAt(p: Pattern, s: string, i: nat): (r: Option<Match>)
    ensures r.Some? ==> r.value.index == i && |r.value.groups| == GroupCount(p)
    ensures r.Some? ==> |r.value.groups[0]| > 0 && StartsAt(s, i, r.value.groups[0])
  {
    match p
    case Fence =>
      var r := FenceAt(s, i);
      if r.Some? then FenceAtSound(s, i); r else r
    case WikiImage => WikiAt(s, i)
    case LinkImage => LinkAt(s, i)
    case Bold => BoldAt(s, i)
  }

  /** The leftmost match that starts at or after `from`; none once `from`
      is past the end of `s` (see `FindFromLeftmost`). */
  function FindFrom(p: Pattern, s: string, from: nat): (r: Option<Match>)
    decreases |s| - from
    ensures r.Some? ==> from <= r.value.index <= |s|
    ensures r.Some? ==> |r.value.groups| == GroupCount(p) && |r.value.groups[0]| > 0
  {
    if from > |s| then None
    else
      var m := MatchAt(p, s, from);
      if m.Some? then m
      else if from == |s| then None
      else FindFrom(p, s, from + 1)
  }

  /** What `FindFrom` returns is the match at its offset. */
  lemma {:induction false} FindFromSound(p: Pattern, s: string, from: nat)
    requires FindFrom(p, s, from).Some?
    ensures MatchAt(p, s, FindFrom(p, s, from).value.index) == FindFrom(p, s, from)
    decreases |s| - from
  {
    if MatchAt(p, s, from).None? {
      FindFromSound(p, s, from + 1);
    }
  }

  /** No match starts between `from` and the one `FindFrom` returns, and
      none at all when it returns nothing. */
  lemma {:induction false} FindFromLeftmost(p: Pattern, s: string, from: nat, k: nat)
    requires from <= k <= |s| && MatchAt(p, s, k).Some?
    ensures FindFrom(p, s, from).Some?
    ensures FindFrom(p, s, from).value.index <= k
    decreases k - from
  {
    var m := MatchAt(p, s, from);
    if m.Some? {
      assert FindFrom(p, s, from) == m;
    } else {
      assert from < k;
      assert FindFrom(p, s, from) == FindFrom(p, s, from + 1);
      FindFromLeftmost(p, s, from + 1, k);
    }
  }

  /** A text in which the opening of the pattern does not occur from
      `from` on has no match there. */
  lemma FindFromAbsent(p: Pattern, s: string, from: nat)
    requires forall k :: from <= k <= |s| ==> !StartsAt(s, k, Opening(p))
    ensures FindFrom(p, s, from).None?
  {
    var r := FindFrom(p, s, from);
    if r.Some? {
      FindFromSound(p, s, from);
      MatchAtOpening(p, s, r.value.index);
    }
  }

  /** A text holding no plantuml fence has no `Fence` match, even when
      "```" occurs in it (an ordinary code block, say). */
  lemma NoFenceFound(s: string, from: nat)
    requires forall i: nat, tag, body :: !IsFence(s, i, tag, body)
    ensures FindFrom(Fence, s, from).None?
  {
    var r := FindFrom(Fence, s, from);
    if r.Some? {
      FindFromSound(Fence, s, from);
      FenceAtSound(s, r.value.index);
    }
  }

  /** A text holding no wiki image embed has no `WikiImage` match. */
  lemma NoWikiFound(s: string, from: nat)
    requires forall i: nat, stem, ext :: !IsWiki(s, i, stem, ext)
    ensures FindFrom(WikiImage, s, from).None?
  {
    var r := FindFrom(WikiImage, s, from);
    if r.Some? {
      FindFromSound(WikiImage, s, from);
      WikiAtSound(s, r.value.index);
    }
  }

  /** A text holding no image link has no `LinkImage` match, even when
      "![" occurs in it. */
  lemma NoLinkFound(s: string, from: nat)
    requires forall i: nat, alt, stem, ext :: !IsLink(s, i, alt, stem, ext)
    ensures FindFrom(LinkImage, s, from).None?
  {
    var r := FindFrom(LinkImage, s, from);
    if r.Some? {
      FindFromSound(LinkImage, s, from);
      LinkAtSound(s, r.value.index);
    }
  }

  /** A text holding no bold span has no `Bold` match, even when "**"
      occurs in it (`a ** b`, `***`). */
  lemma NoBoldFound(s: string, from: nat)
    requires forall i: nat, inner :: !IsBold(s, i, inner)
    ensures FindFrom(Bold, s, from).None?
  {
    var r := FindFrom(Bold, s, from);
    if r.Some? {
      FindFromSound(Bold, s, from);
      BoldAtSound(s, r.value.index);
    }
  }

  lemma MatchAtOpening(p: Pattern, s: string, i: nat)
    requires MatchAt(p, s, i).Some?
    ensures StartsAt(s, i, Opening(p))
  {
  }

  /** A regular expression object with the `g` flag.  `lastIndex` is where
      the next `exec` starts searching, whatever string it is given. */
  class GlobalRegex {
    const pattern: Pattern
    var lastIndex: nat

    constructor (p: Pattern)
      ensures pattern == p && lastIndex == 0
    {
      pattern := p;
      lastIndex := 0;
    }

    /** `exec(s)`: the leftmost match at or after `lastIndex`; a match moves
        `lastIndex` just past itself, a failure resets it to 0. */
    method Exec(s: string) returns (m: Option<Match>)
      modifies this
      ensures m == FindFrom(pattern, s, old(lastIndex))
      ensures m.Some? ==> |m.value.groups| == GroupCount(pattern) && lastIndex == End(m.value)
      ensures m.None? ==> lastIndex == 0
    {
      m := FindFrom(pattern, s, lastIndex);
      lastIndex := if m.Some? then End(m.value) else 0;
    }
  }
}
