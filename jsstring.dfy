/** The JavaScript string operations the plugin relies on: `indexOf`,
    `Array.prototype.join` and `String.prototype.replace` with a string
    pattern, including the `$` patterns of its replacement template. */
module JsString {
  import opened Wrappers

  /** `pat` occurs in `s` at offset `k`. */
  predicate StartsAt(s: string, k: nat, pat: string) {
    k + |pat| <= |s| && s[k..k + |pat|] == pat
  }

  /** `s.indexOf(pat, from)`: the first occurrence of `pat` at or after `from`. */
  function IndexOf(s: string, pat: string, from: nat): (r: Option<nat>)
    decreases |s| - from
    ensures r.Some? ==> from <= r.value && StartsAt(s, r.value, pat)
    ensures r.Some? ==> forall k :: from <= k < r.value ==> !StartsAt(s, k, pat)
    ensures r.None? ==> forall k :: from <= k ==> !StartsAt(s, k, pat)
  {
    if from + |pat| > |s| then None
    else if s[from..from + |pat|] == pat then Some(from)
    else IndexOf(s, pat, from + 1)
  }

  /** The first occurrence of `pat` in `s` is at `k`. */
  lemma IndexOfFirst(s: string, pat: string, k: nat)
    requires StartsAt(s, k, pat)
    requires forall j :: 0 <= j < k ==> !StartsAt(s, j, pat)
    ensures IndexOf(s, pat, 0) == Some(k)
  {
  }

  /** GetSubstitution for a string pattern (there are no capture groups):
      `$$` stands for `$`, `$&` for the matched text, `` $` `` for the text
      before the match and `$'` for the text after it; every other character,
      a `$` followed by a digit or `<` included, is copied. */
  function Substitute(template: string, matched: string, before: string, after: string): string
    decreases |template|
  {
    if |template| == 0 then ""
    else if template[0] == '$' && |template| >= 2 && template[1] in "$&`'" then
      var piece := match template[1]
        case '$' => "$"
        case '&' => matched
        case '`' => before
        case _ => after;
      piece + Substitute(template[2..], matched, before, after)
    else [template[0]] + Substitute(template[1..], matched, before, after)
  }

  /** A template without `$` is inserted verbatim. */
  lemma {:induction false} SubstituteLiteral(template: string, matched: string, before: string, after: string)
    requires '$' !in template
    ensures Substitute(template, matched, before, after) == template
    decreases |template|
  {
    if |template| > 0 {
      assert template[0] != '$';
      assert '$' !in template[1..];
      SubstituteLiteral(template[1..], matched, before, after);
      assert template == [template[0]] + template[1..];
    }
  }

  /** `s.replace(pat, template)`: only the first occurrence of `pat` is
      replaced; a string without `pat` is returned unchanged. */
  function ReplaceFirst(s: string, pat: string, template: string): string {
    match IndexOf(s, pat, 0)
    case None => s
    case Some(k) =>
      s[..k] + Substitute(template, pat, s[..k], s[k + |pat|..]) + s[k + |pat|..]
  }

  /** The replacement keeps everything before the first occurrence `k` and
      everything after it, and a `$`-free template appears exactly as given. */
  lemma ReplaceFirstAt(s: string, pat: string, template: string, k: nat)
    requires StartsAt(s, k, pat)
    requires forall j :: 0 <= j < k ==> !StartsAt(s, j, pat)
    requires '$' !in template
    ensures ReplaceFirst(s, pat, template) == s[..k] + template + s[k + |pat|..]
  {
    IndexOfFirst(s, pat, k);
    SubstituteLiteral(template, pat, s[..k], s[k + |pat|..]);
  }

  /** The replacement at the first occurrence `k`, whatever the template. */
  lemma ReplaceFirstSplit(s: string, pat: string, template: string, k: nat)
    requires IndexOf(s, pat, 0) == Some(k)
    ensures k + |pat| <= |s|
    ensures ReplaceFirst(s, pat, template)
      == s[..k] + Substitute(template, pat, s[..k], s[k + |pat|..]) + s[k + |pat|..]
  {
  }

  /** A string in which `pat` does not occur is not changed. */
  lemma ReplaceAbsent(s: string, pat: string, template: string)
    requires forall k :: 0 <= k ==> !StartsAt(s, k, pat)
    ensures ReplaceFirst(s, pat, template) == s
  {
  }

  /** `parts.join(sep)`. */
  function Join(parts: seq<string>, sep: string): string
    decreases |parts|
  {
    if |parts| == 0 then ""
    else if |parts| == 1 then parts[0]
    else parts[0] + sep + Join(parts[1..], sep)
  }
}
