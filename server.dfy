/** The server processor: a diagram becomes the URL at which a PlantUML
    server renders it.  Nothing is fetched; `encode` is the
    `plantuml-encoder` function, which is not part of this model. */
module ServerProcessor {
  import opened Settings

  /** The configured server, or the default one when the setting is empty;
      used verbatim, without trailing-slash normalisation. */
  function BaseUrl(settings: Settings): (url: string)
    ensures |url| > 0
    ensures |settings.plantUmlServerUrl| > 0 ==> url == settings.plantUmlServerUrl
    ensures |settings.plantUmlServerUrl| == 0 ==> url == DefaultServerUrl
  {
    if |settings.plantUmlServerUrl| == 0 then DefaultServerUrl else settings.plantUmlServerUrl
  }

  function Svg(settings: Settings, encode: string -> string, source: string): string {
    BaseUrl(settings) + "/svg/" + encode(source)
  }

  function Png(settings: Settings, encode: string -> string, source: string): string {
    BaseUrl(settings) + "/png/" + encode(source)
  }

  /** A URL splits back into the base, the format segment and the encoded
      diagram. */
  lemma UrlParts(settings: Settings, encode: string -> string, source: string)
    ensures var base := BaseUrl(settings);
      var svg := Svg(settings, encode, source);
      var png := Png(settings, encode, source);
      && |svg| == |png| == |base| + 5 + |encode(source)|
      && svg[..|base|] == png[..|base|] == base
      && svg[|base|..|base| + 5] == "/svg/" && png[|base|..|base| + 5] == "/png/"
      && svg[|base| + 5..] == png[|base| + 5..] == encode(source)
  {
  }

  /** The two URLs of a diagram differ only inside the format segment. */
  lemma SvgPngDiffer(settings: Settings, encode: string -> string, source: string)
    ensures var n := |BaseUrl(settings)|;
      forall k :: 0 <= k < |Svg(settings, encode, source)| && (k < n + 1 || n + 4 <= k) ==>
        Svg(settings, encode, source)[k] == Png(settings, encode, source)[k]
  {
    UrlParts(settings, encode, source);
    var base := BaseUrl(settings);
    var svg, png := Svg(settings, encode, source), Png(settings, encode, source);
    var n := |base|;
    forall k | 0 <= k < |svg| && (k < n + 1 || n + 4 <= k)
      ensures svg[k] == png[k]
    {
      if k < n {
        assert svg[k] == svg[..n][k] && png[k] == png[..n][k];
      } else if k == n || k == n + 4 {
        assert svg[k] == svg[n..n + 5][k - n] && png[k] == png[n..n + 5][k - n];
      } else {
        assert svg[k] == svg[n + 5..][k - n - 5] && png[k] == png[n + 5..][k - n - 5];
      }
    }
  }

  /** The result depends only on the configured URL and the source text. */
  lemma UrlDeterminedBySettingsUrl(s1: Settings, s2: Settings, encode: string -> string, source: string)
    requires s1.plantUmlServerUrl == s2.plantUmlServerUrl
    ensures Svg(s1, encode, source) == Svg(s2, encode, source)
    ensures Png(s1, encode, source) == Png(s2, encode, source)
  {
  }
}
