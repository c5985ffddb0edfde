/** The local processor: PlantUML run as a child process, with a
    content-addressed cache in front of it.  The cache is the `localforage`
    store, a map from keys to stored strings; `encode` is the
    `plantuml-encoder` function, and the operating system's answers (home
    directory, path functions, the process run) come in as a `Host`. */
module LocalProcessor {
  import opened Wrappers
  import opened Outcome
  import opened Settings
  import opened JsString
  import Base64

  /** OutputType, whose values are taken to be the strings "png" and "svg". */
  datatype OutputType = PNG | SVG

  function TypeName(t: OutputType): string {
    match t
    case PNG => "png"
    case SVG => "svg"
  }

  /** How a run of the PlantUML process ends, as its event handlers see it. */
  datatype ProcessRun = ProcessRun(
    spawnError: Option<string>,  // the 'error' event
    exitCode: Option<int>,       // the code of the 'close' event; None for null
    stdout: Option<string>,      // None until the first 'data' chunk
    stderr: Option<string>)

  /** What the operating system answers. */
  datatype Host = Host(
    homedir: string,                         // os.userInfo().homedir
    isAbsolute: string -> bool,              // path.isAbsolute
    resolve: (string, string) -> string,     // path.resolve
    vaultPath: string,                       // replacer.getFullPath("")
    cwd: string,                             // replacer.getPath(null)
    run: (string, string, string, OutputType) -> ProcessRun)  // command, cwd, stdin, output type

  /** The jar location: `~` stands for the home directory, an absolute path
      is kept, anything else is taken relative to the vault. */
  function JarPath(localJar: string, host: Host): string {
    if |localJar| > 0 && localJar[0] == '~' then host.homedir + localJar[1..]
    else if host.isAbsolute(localJar) then localJar
    else host.resolve(host.vaultPath, localJar)
  }

  /** A jar given from the home directory or as an absolute path does not
      depend on where the vault is. */
  lemma JarPathIgnoresVault(localJar: string, host: Host, vault: string)
    requires (|localJar| > 0 && localJar[0] == '~') || host.isAbsolute(localJar)
    ensures JarPath(localJar, host) == JarPath(localJar, host.(vaultPath := vault))
  {
  }

  /** A `~` path keeps everything after the `~`. */
  lemma JarPathHome(localJar: string, host: Host)
    requires |localJar| > 0 && localJar[0] == '~'
    ensures var p := JarPath(localJar, host);
      p[..|host.homedir|] == host.homedir && p[|host.homedir|..] == localJar[1..]
      && |p| == |host.homedir| + |localJar| - 1
  {
  }

  predicate EndsWith(s: string, suffix: string) {
    |suffix| <= |s| && s[|s| - |suffix|..] == suffix
  }

  function Quote(s: string): string {
    "\"" + s + "\""
  }

  /** resolveLocalJarCmd: a `.jar` is started through java, anything else
      is run as the executable itself. */
  function ResolveLocalJarCmd(settings: Settings, host: Host): Result<seq<string>, Failure> {
    var jar := JarPath(settings.localJar, host);
    if |jar| == 0 then Failure(InvalidJarFile)
    else if EndsWith(jar, ".jar") then
      Success([settings.javaPath, "-jar", "-Djava.awt.headless=true", Quote(jar),
               "-charset", "utf-8", "-graphvizdot", Quote(settings.dotPath)])
    else
      Success([jar, "-Djava.awt.headless=true", "-charset", "utf-8", "-graphvizdot", Quote(settings.dotPath)])
  }

  /** The full argument list of generateLocalImage. */
  function CommandArgs(settings: Settings, host: Host, t: OutputType): Result<seq<string>, Failure> {
    match ResolveLocalJarCmd(settings, host)
    case Failure(e) => Failure(e)
    case Success(args) => Success(args + ["-t" + TypeName(t), "-pipe"])
  }

  /** The command fails exactly for an empty jar path; otherwise it ends
      with the quoted dot path, the output type and `-pipe`, and `-jar`
      with the quoted jar follows java exactly for a `.jar` file. */
  lemma CommandShape(settings: Settings, host: Host, t: OutputType)
    ensures var jar := JarPath(settings.localJar, host);
      CommandArgs(settings, host, t).Failure? <==> |jar| == 0
    ensures CommandArgs(settings, host, t).Failure? ==> CommandArgs(settings, host, t).error == InvalidJarFile
    ensures CommandArgs(settings, host, t).Success? ==>
      var args := CommandArgs(settings, host, t).value;
      var jar := JarPath(settings.localJar, host);
      && |args| >= 8
      && args[|args| - 3..] == [Quote(settings.dotPath), "-t" + TypeName(t), "-pipe"]
      && args[|args| - 4] == "-graphvizdot"
      && (EndsWith(jar, ".jar") ==>
            |args| == 10 && args[..4] == [settings.javaPath, "-jar", "-Djava.awt.headless=true", Quote(jar)])
      && (!EndsWith(jar, ".jar") ==>
            |args| == 8 && args[..2] == [jar, "-Djava.awt.headless=true"])
  {
  }

  /** Node's `Buffer.from(s, 'binary')`: one byte per character, its low
      eight bits. */
  function Latin1(s: string): (b: Base64.Bytes)
    ensures |b| == |s|
    ensures forall k :: 0 <= k < |s| ==> b[k] == (s[k] as int) % 256
  {
    seq(|s|, k requires 0 <= k < |s| => (s[k] as int) % 256)
  }

  /** How the promise of generateLocalImage settles: a spawn error rejects
      it; without any output it never settles; exit code 1 rejects it with
      whatever stderr holds; every other code resolves it with the output,
      base 64 encoded for PNG. */
  function Settle(t: OutputType, run: ProcessRun): Completion<string> {
    if run.spawnError.Some? then Rejected(SpawnFailed(run.spawnError.value))
    else if run.stdout.None? then Pending
    else if run.exitCode == Some(1) then Rejected(ProcessFailed(run.stderr.GetOr("")))
    else Resolved(if t == PNG then Base64.Encode(Latin1(run.stdout.value)) else run.stdout.value)
  }

  /** Only exit code 1 is a failure: 0, every other code and a missing
      code settle alike. */
  lemma SettleExitCodes(t: OutputType, run: ProcessRun, code: Option<int>)
    requires run.spawnError.None? && run.stdout.Some?
    requires run.exitCode != Some(1) && code != Some(1)
    ensures Settle(t, run) == Settle(t, run.(exitCode := code))
    ensures Settle(t, run).Resolved?
    ensures Settle(t, run.(exitCode := Some(1))) == Rejected(ProcessFailed(run.stderr.GetOr("")))
  {
  }

  /** Without output the promise never settles, whatever the exit code. */
  lemma SettleWithoutOutput(t: OutputType, run: ProcessRun, code: Option<int>)
    requires run.spawnError.None? && run.stdout.None?
    ensures Settle(t, run) == Settle(t, run.(exitCode := code)) == Pending
  {
  }

  /** A PNG result decodes back to exactly the bytes the process wrote. */
  lemma SettlePngDecodes(run: ProcessRun)
    requires Settle(PNG, run).Resolved?
    ensures Base64.Decode(Settle(PNG, run).value) == Some(Latin1(run.stdout.value))
  {
    Base64.DecodeEncode(Latin1(run.stdout.value));
  }

  /** generateLocalImage: build the command, run it on the source, settle. */
  function GenerateLocalImage(settings: Settings, host: Host, source: string, t: OutputType): Completion<string> {
    match CommandArgs(settings, host, t)
    case Failure(e) => Rejected(e)
    case Success(args) => Settle(t, host.run(Join(args, " "), host.cwd, source, t))
  }

  // -------------------------------------------------------------------
  // The cache protocol

  /** The cache key of a diagram: "png-" or "svg-" and the encoded source. */
  function CacheKey(t: OutputType, encoded: string): string {
    match t
    case PNG => "png-" + encoded
    case SVG => "svg-" + encoded
  }

  /** PNG and SVG results never share a key. */
  lemma CacheKeysDistinct(x: string, y: string)
    ensures CacheKey(PNG, x) != CacheKey(SVG, y)
  {
    assert CacheKey(PNG, x)[0] == 'p';
    assert CacheKey(SVG, y)[0] == 's';
  }

  const PngDataUriPrefix: string := "data:image/png;base64,"

  /** `getItem` followed by `if (item)`: an absent or empty value is a miss. */
  function Cached(cache: map<string, string>, key: string): Option<string> {
    if key in cache && cache[key] != "" then Some(cache[key]) else None
  }

  /** What `svg` and `png` hand back for a stored or generated value. */
  function Present(t: OutputType, item: string): string {
    if t == PNG then PngDataUriPrefix + item else item
  }

  /** One call of `svg` or `png`: its outcome and the cache afterwards. */
  function Render(settings: Settings, host: Host, encode: string -> string,
                  cache: map<string, string>, t: OutputType, source: string): (Completion<string>, map<string, string>)
  {
    var key := CacheKey(t, encode(source));
    match Cached(cache, key)
    case Some(item) => (Resolved(Present(t, item)), cache)
    case None =>
      var generated := GenerateLocalImage(settings, host, source, t);
      if generated.Resolved? then (Resolved(Present(t, generated.value)), cache[key := generated.value])
      else (generated, cache)
  }

  /** A hit answers from the cache alone: the process is not consulted and
      the cache is not changed. */
  lemma HitSkipsGeneration(settings: Settings, host: Host, other: Host, encode: string -> string,
                           cache: map<string, string>, t: OutputType, source: string)
    requires Cached(cache, CacheKey(t, encode(source))).Some?
    ensures var key := CacheKey(t, encode(source));
      Render(settings, host, encode, cache, t, source) == (Resolved(Present(t, cache[key])), cache)
    ensures Render(settings, host, encode, cache, t, source) == Render(settings, other, encode, cache, t, source)
  {
  }

  /** A miss generates the image and stores it under the same key; a
      failed generation leaves the cache as it was. */
  lemma MissStores(settings: Settings, host: Host, encode: string -> string,
                   cache: map<string, string>, t: OutputType, source: string)
    requires Cached(cache, CacheKey(t, encode(source))).None?
    ensures var key := CacheKey(t, encode(source));
      var generated := GenerateLocalImage(settings, host, source, t);
      var (r, after) := Render(settings, host, encode, cache, t, source);
      && (generated.Resolved? ==> r == Resolved(Present(t, generated.value)) && after == cache[key := generated.value])
      && (!generated.Resolved? ==> r == generated && after == cache)
  {
  }

  /** Only the diagram's own key can change. */
  lemma RenderTouchesOneKey(settings: Settings, host: Host, encode: string -> string,
                            cache: map<string, string>, t: OutputType, source: string, k: string)
    requires k != CacheKey(t, encode(source))
    ensures var after := Render(settings, host, encode, cache, t, source).1;
      (k in after <==> k in cache) && (k in cache ==> after[k] == cache[k])
  {
  }

  /** Asking twice gives the same answer, the second time from the cache,
      unless the first answer was generated from an empty output, which is
      stored but then counts as a miss. */
  lemma RenderTwice(settings: Settings, host: Host, other: Host, encode: string -> string,
                    cache: map<string, string>, t: OutputType, source: string)
    requires var (r, after) := Render(settings, host, encode, cache, t, source);
      r.Resolved? && Cached(after, CacheKey(t, encode(source))).Some?
    ensures var (r, after) := Render(settings, host, encode, cache, t, source);
      Render(settings, other, encode, after, t, source) == (r, after)
  {
    var key := CacheKey(t, encode(source));
    var (r, after) := Render(settings, host, encode, cache, t, source);
    if Cached(cache, key).None? {
      assert after == cache[key := GenerateLocalImage(settings, host, source, t).value];
    }
  }

  /** The `localforage` store as the processor sees it. */
  class LocalProcessor {
    var cache: map<string, string>

    constructor (stored: map<string, string>)
      ensures cache == stored
    {
      cache := stored;
    }

    /** `svg`: the cached text, or the generated one, which is then stored. */
    method Svg(settings: Settings, host: Host, encode: string -> string, source: string) returns (r: Completion<string>)
      modifies this
      ensures (r, cache) == Render(settings, host, encode, old(cache), SVG, source)
    {
      var key := CacheKey(SVG, encode(source));
      if key in cache && cache[key] != "" {
        return Resolved(cache[key]);
      }
      r := GenerateLocalImage(settings, host, source, SVG);
      if r.Resolved? {
        cache := cache[key := r.value];
      }
    }

    /** `png`: a data URI around the cached or generated base 64 text. */
    method Png(settings: Settings, host: Host, encode: string -> string, source: string) returns (r: Completion<string>)
      modifies this
      ensures (r, cache) == Render(settings, host, encode, old(cache), PNG, source)
    {
      var key := CacheKey(PNG, encode(source));
      if key in cache && cache[key] != "" {
        return Resolved(PngDataUriPrefix + cache[key]);
      }
      var image := GenerateLocalImage(settings, host, source, PNG);
      if image.Resolved? {
        cache := cache[key := image.value];
        return Resolved(PngDataUriPrefix + image.value);
      }
      return image;
    }
  }
}
