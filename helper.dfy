/** The string helpers of the Excalidraw copy: escaping text for use in a
    regular expression, splitting a note's path, normalising the vault
    path and the mime types of images. */
module ExcalidrawHelper {
  import opened Wrappers

  // -------------------------------------------------------------------
  // escapeRegExp

  /** The characters `escapeRegExp` escapes: `. * + ? ^ $ { } ( ) | [ ] \`. */
  const Special: string := ".*+?^${}()|[]\\"

  /** `string.replace(/[.*+?^${}()|[\]\\]/g, '\\$&')`: a backslash before
      every special character. */
  function EscapeRegExp(s: string): string
    decreases |s|
  {
    if |s| == 0 then ""
    else (if s[0] in Special then ['\\', s[0]] else [s[0]]) + EscapeRegExp(s[1..])
  }

  /** The number of special characters in `s`. */
  function SpecialCount(s: string): nat
    decreases |s|
  {
    if |s| == 0 then 0 else (if s[0] in Special then 1 else 0) + SpecialCount(s[1..])
  }

  /** Drops the backslash of every escaped pair. */
  function Unescape(t: string): string
    decreases |t|
  {
    if |t| == 0 then ""
    else if t[0] == '\\' && |t| >= 2 then [t[1]] + Unescape(t[2..])
    else [t[0]] + Unescape(t[1..])
  }

  /** One backslash is added per special character. */
  lemma {:induction false} EscapeLength(s: string)
    ensures |EscapeRegExp(s)| == |s| + SpecialCount(s)
    decreases |s|
  {
    if |s| > 0 {
      EscapeLength(s[1..]);
    }
  }

  /** Dropping the inserted backslashes gives the input back. */
  lemma {:induction false} UnescapeEscape(s: string)
    ensures Unescape(EscapeRegExp(s)) == s
    decreases |s|
  {
    if |s| > 0 {
      UnescapeEscape(s[1..]);
      var rest := EscapeRegExp(s[1..]);
      if s[0] in Special {
        assert EscapeRegExp(s) == ['\\', s[0]] + rest;
        assert (['\\', s[0]] + rest)[2..] == rest;
      } else {
        assert s[0] != '\\';
        assert EscapeRegExp(s) == [s[0]] + rest;
        assert ([s[0]] + rest)[1..] == rest;
      }
      assert s == [s[0]] + s[1..];
    }
  }

  /** Every special character of the output is escaped: it follows a
      backslash that is itself not escaped. */
  lemma {:induction false} EscapedSpecials(s: string)
    ensures forall k :: 0 <= k < |EscapeRegExp(s)| && EscapeRegExp(s)[k] in Special && EscapeRegExp(s)[k] != '\\' ==>
      k > 0 && EscapeRegExp(s)[k - 1] == '\\'
    decreases |s|
  {
    if |s| > 0 {
      EscapedSpecials(s[1..]);
      var head := if s[0] in Special then ['\\', s[0]] else [s[0]];
      var rest := EscapeRegExp(s[1..]);
      var t := EscapeRegExp(s);
      assert t == head + rest;
      forall k | 0 <= k < |t| && t[k] in Special && t[k] != '\\'
        ensures k > 0 && t[k - 1] == '\\'
      {
        if k >= |head| {
          assert t[k] == rest[k - |head|];
          if k - |head| > 0 {
            assert t[k - 1] == rest[k - |head| - 1];
          } else {
            assert false;
          }
        }
      }
    }
  }

  // -------------------------------------------------------------------
  // The note's path

  /** The offset of the last `/` in `s`, if any. */
  function LastSlash(s: string): (r: Option<nat>)
    decreases |s|
    ensures r.Some? ==> r.value < |s| && s[r.value] == '/' && '/' !in s[r.value + 1..]
    ensures r.None? ==> '/' !in s
  {
    if |s| == 0 then None
    else if s[|s| - 1] == '/' then Some(|s| - 1)
    else
      var r := LastSlash(s[..|s| - 1]);
      assert s == s[..|s| - 1] + [s[|s| - 1]];
      if r.Some? then
        assert s[r.value + 1..] == s[..|s| - 1][r.value + 1..] + [s[|s| - 1]];
        r
      else r
  }

  /** `fullPath.split(/\/(?=[^\/]+$)/)`: the split happens at a `/` that is
      followed by a non-empty run without `/` up to the end, which only the
      last `/` can be; without such a `/` there is nothing to split. */
  function SplitPath(fullPath: string): (r: Option<(string, string)>)
    ensures r.Some? ==> r.value.0 + "/" + r.value.1 == fullPath && |r.value.1| > 0 && '/' !in r.value.1
    ensures r.None? ==> '/' !in fullPath || fullPath[|fullPath| - 1] == '/'
  {
    match LastSlash(fullPath)
    case None => None
    case Some(k) =>
      if k == |fullPath| - 1 then None
      else
        assert fullPath == fullPath[..k] + "/" + fullPath[k + 1..];
        Some((fullPath[..k], fullPath[k + 1..]))
  }

  /** `filename.replace(/\.md$/, '')`, where `filename` is the part after the
      split; `None` when there is no such part and `filename.replace` throws
      on `undefined`. */
  function Basename(fullPath: string): Option<string> {
    match SplitPath(fullPath)
    case None => None
    case Some((_, filename)) =>
      if |filename| >= 3 && filename[|filename| - 3..] == ".md" then Some(filename[..|filename| - 3])
      else Some(filename)
  }

  /** The last `/` of `d + "/" + n`, when `n` has none, is the one after `d`. */
  lemma {:induction false} LastSlashOf(d: string, n: string)
    requires '/' !in n
    ensures LastSlash(d + "/" + n) == Some(|d|)
    decreases |n|
  {
    var p := d + "/" + n;
    if |n| > 0 {
      assert p[|p| - 1] == n[|n| - 1];
      assert p[..|p| - 1] == d + "/" + n[..|n| - 1];
      assert '/' !in n[..|n| - 1] by {
        forall c | c in n[..|n| - 1]
          ensures c in n
        {
        }
      }
      LastSlashOf(d, n[..|n| - 1]);
    } else {
      assert p[|p| - 1] == '/';
    }
  }

  /** A path splits into the directory and the last segment. */
  lemma SplitPathOf(d: string, n: string)
    requires '/' !in n && |n| > 0
    ensures SplitPath(d + "/" + n) == Some((d, n))
  {
    var p := d + "/" + n;
    LastSlashOf(d, n);
    assert p[..|d|] == d;
    assert p[|d| + 1..] == n;
  }

  /** The base name of a note path is its last segment without `.md`. */
  lemma BasenameOfNote(dir: string, name: string)
    requires '/' !in name
    ensures Basename(dir + "/" + name + ".md") == Some(name)
  {
    var file := name + ".md";
    assert '/' !in file by {
      forall c | c in file
        ensures c != '/'
      {
        var i :| 0 <= i < |file| && file[i] == c;
        if i < |name| {
          assert c == name[i];
        }
      }
    }
    assert dir + "/" + name + ".md" == dir + "/" + file;
    SplitPathOf(dir, file);
    assert file[|file| - 3..] == ".md";
    assert file[..|file| - 3] == name;
  }

  /** A path without `/` has no file name, so the base name cannot be
      computed. */
  lemma BasenameWithoutSlash(fullPath: string)
    requires '/' !in fullPath
    ensures Basename(fullPath).None?
  {
  }

  // -------------------------------------------------------------------
  // The vault path

  /** `getBasePath().replace(/\\/g, '/')`. */
  function NormalizeVaultPath(p: string): (r: string)
    decreases |p|
    ensures |r| == |p|
    ensures forall k :: 0 <= k < |p| ==> r[k] == (if p[k] == '\\' then '/' else p[k])
  {
    if |p| == 0 then ""
    else [if p[0] == '\\' then '/' else p[0]] + NormalizeVaultPath(p[1..])
  }

  /** `app://local/` followed by the normalised vault path. */
  function VaultUriPrefix(basePath: string): string {
    "app://local/" + NormalizeVaultPath(basePath)
  }

  /** The prefix holds no backslash after the scheme, and normalising twice
      changes nothing. */
  lemma VaultUriPrefixSlashes(basePath: string)
    ensures '\\' !in VaultUriPrefix(basePath)
    ensures NormalizeVaultPath(NormalizeVaultPath(basePath)) == NormalizeVaultPath(basePath)
  {
    var n := NormalizeVaultPath(basePath);
    assert forall k :: 0 <= k < |n| ==> n[k] != '\\';
    var u := VaultUriPrefix(basePath);
    forall k | 0 <= k < |u|
      ensures u[k] != '\\'
    {
      if k >= 12 {
        assert u[k] == n[k - 12];
      }
    }
  }

  // -------------------------------------------------------------------
  // Mime types

  /** The mime type of an image extension: `mimeMap` holds the two that
      differ from `image/<extension>`. */
  function MimeType(ext: string): string {
    if ext == "svg" then "image/svg+xml"
    else if ext == "jpg" then "image/jpeg"
    else "image/" + ext
  }

  predicate IsSvg(mimeType: string) {
    mimeType == "image/svg+xml"
  }

  /** An extension is taken for SVG exactly when it is `svg`, or the
      unusual `svg+xml` whose default mime type is the same text. */
  lemma IsSvgMimeType(ext: string)
    ensures IsSvg(MimeType(ext)) <==> ext == "svg" || ext == "svg+xml"
  {
    if ext != "svg" && ext != "jpg" && IsSvg(MimeType(ext)) {
      assert "image/" + ext == "image/svg+xml";
      assert ext == ("image/" + ext)[6..] == "image/svg+xml"[6..];
    }
  }

  /** Every mime type the table gives starts with `image/`. */
  lemma MimeTypeIsImage(ext: string)
    ensures |MimeType(ext)| >= 6 && MimeType(ext)[..6] == "image/"
  {
  }
}
