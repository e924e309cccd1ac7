/**
 * Model of utils/imgUtils.js: the MIME type chosen from a path's extension
 * (`getMimeType`, using POSIX `path.extname` and `toLowerCase`) and the
 * `data:<mime>;base64,<payload>` URI of section 3 of RFC 2397 that
 * `getImageAsBase64` builds.  The file system and the base64 encoder
 * (section 4 of RFC 4648) are parameters.
 */
module ImgUtils {
  import opened Wrappers
  import opened JsString

  newtype byte = b: int | 0 <= b < 256

  /** The path without its trailing slashes. */
  function TrimTrailingSlashes(p: string): (r: string)
    ensures r <= p
    ensures r == [] || r[|r| - 1] != '/'
    ensures forall i :: |r| <= i < |p| ==> p[i] == '/'
  {
    if p == [] || p[|p| - 1] != '/' then p else TrimTrailingSlashes(p[..|p| - 1])
  }

  /** The last path segment, trailing slashes ignored. */
  function LastSegment(p: string): (seg: string)
    ensures '/' !in seg
  {
    var t := TrimTrailingSlashes(p);
    t[LastIndexOf(t, '/') + 1..]
  }

  /**
   * POSIX `path.extname`: the last segment's suffix from its last dot, or
   * "" when the segment has no dot, when its only dot is its first
   * character, or when the segment is "..".
   */
  function Extname(p: string): (r: string)
    ensures r == [] || (r[0] == '.' && '.' !in r[1..] && '/' !in r)
  {
    SegmentExtension(LastSegment(p))
  }

  /** The extension of one path segment: from its last dot, unless that dot comes first or the segment is "..". */
  function SegmentExtension(seg: string): (r: string)
    ensures r == [] || (r[0] == '.' && '.' !in r[1..] && |r| <= |seg| && r == seg[|seg| - |r|..])
  {
    var k := LastIndexOf(seg, '.');
    if k <= 0 || seg == ".." then "" else seg[k..]
  }

  const OctetStream := "application/octet-stream"

  /** The lower-cased extensions the switch recognises, and the type of each. */
  const KnownTypes: map<string, string> := map[
    ".jpg" := "image/jpeg", ".jpeg" := "image/jpeg", ".png" := "image/png",
    ".gif" := "image/gif", ".bmp" := "image/bmp", ".svg" := "image/svg+xml"]

  /** The `switch` of `getMimeType`, on an extension already lower-cased. */
  function MimeOfExtension(ext: string): (r: string)
    ensures r == OctetStream <==> ext !in KnownTypes
    ensures ext in KnownTypes ==> r == KnownTypes[ext]
    ensures ';' !in r
  {
    if ext == ".jpg" || ext == ".jpeg" then "image/jpeg"
    else if ext == ".png" then "image/png"
    else if ext == ".gif" then "image/gif"
    else if ext == ".bmp" then "image/bmp"
    else if ext == ".svg" then "image/svg+xml"
    else OctetStream
  }

  /** `getMimeType(filePath)`. */
  function MimeType(path: string): (r: string)
    ensures r in {"image/jpeg", "image/png", "image/gif", "image/bmp", "image/svg+xml", OctetStream}
  {
    MimeOfExtension(AsciiLower(Extname(path)))
  }

  /** Only the last segment matters: the last segment of `dir/name` is `name`. */
  lemma SegmentOf(dir: string, name: string)
    requires dir == [] || dir[|dir| - 1] == '/'
    requires '/' !in name && name != [] && name[|name| - 1] != '/'
    ensures LastSegment(dir + name) == name
  {
    var p := dir + name;
    assert TrimTrailingSlashes(p) == p;
    if dir == [] {
      assert p == name;
    } else {
      assert p[|dir| - 1] == '/';
      assert p[|dir|..] == name;
      LastIndexOfAt(p, '/', |dir| - 1);
    }
  }

  /** A file name `stem.ext` has extension `.ext`, whatever dots the stem holds. */
  lemma ExtnameOfFileName(p: string, stem: string, ext: string)
    requires LastSegment(p) == stem + "." + ext
    requires '.' !in ext && stem != [] && (stem != "." || ext != [])
    ensures Extname(p) == "." + ext
  {
    var name := stem + "." + ext;
    assert name[|stem|] == '.' && name[|stem| + 1..] == ext;
    assert name[|stem|..] == "." + ext;
    assert |stem| == 1 ==> stem == [stem[0]];
    assert name[0] == stem[0] && |name| == |stem| + 1 + |ext|;
    LastIndexOfAt(name, '.', |stem|);
  }

  /** A file name whose only dot is its first character (a dot file) has no extension. */
  lemma DotFileHasNoExtension(p: string, name: string)
    requires LastSegment(p) == "." + name && '.' !in name
    ensures Extname(p) == ""
  {
    assert ("." + name)[1..] == name;
    LastIndexOfAt("." + name, '.', 0);
  }

  /** Only the final extension counts: `photo.png.bak` is not an image. */
  lemma LastExtensionOnly(p: string, stem: string, ext: string)
    requires LastSegment(p) == stem + "." + ext
    requires '.' !in ext && stem != [] && (stem != "." || ext != [])
    requires AsciiLower("." + ext) !in KnownTypes
    ensures MimeType(p) == OctetStream
  {
    ExtnameOfFileName(p, stem, ext);
  }

  /** A file name `stem.ext`, with `ext` a known extension in any case, gets that extension's type. */
  lemma KnownExtensionType(p: string, stem: string, ext: string)
    requires LastSegment(p) == stem + "." + ext
    requires '.' !in ext && stem != []
    requires AsciiLower("." + ext) in KnownTypes
    ensures MimeType(p) == KnownTypes[AsciiLower("." + ext)]
  {
    ExtnameOfFileName(p, stem, ext);
  }

  /**
   * Matching ignores case: lower-casing the whole path first does not
   * change the type, since lower-casing keeps every '/' and '.' in place.
   */
  lemma MimeTypeIgnoresCase(path: string)
    ensures MimeType(AsciiLower(path)) == MimeType(path)
  {
    ExtnameLower(path);
    AsciiLowerIdempotent(Extname(path));
  }

  lemma AsciiLowerIdempotent(s: string)
    ensures AsciiLower(AsciiLower(s)) == AsciiLower(s)
  {
  }

  lemma ExtnameLower(p: string)
    ensures Extname(AsciiLower(p)) == AsciiLower(Extname(p))
  {
    SegmentLower(p);
    SegmentExtensionLower(LastSegment(p));
  }

  lemma SegmentExtensionLower(seg: string)
    ensures SegmentExtension(AsciiLower(seg)) == AsciiLower(SegmentExtension(seg))
  {
    var lseg := AsciiLower(seg);
    LastIndexOfLower(seg, '.');
    var k := LastIndexOf(seg, '.');
    if k > 0 {
      AsciiLowerSuffix(seg, k);
      DotDotLower(seg);
    }
  }

  lemma DotDotLower(seg: string)
    ensures (AsciiLower(seg) == "..") == (seg == "..")
  {
    if |seg| == 2 {
      assert AsciiLower(seg) == [LowerChar(seg[0]), LowerChar(seg[1])];
      assert seg == [seg[0], seg[1]];
    }
  }

  lemma SegmentLower(p: string)
    ensures LastSegment(AsciiLower(p)) == AsciiLower(LastSegment(p))
  {
    var t := TrimTrailingSlashes(p);
    var lt := TrimTrailingSlashes(AsciiLower(p));
    TrimLower(p);
    var j := LastIndexOf(t, '/');
    LastIndexOfLower(t, '/');
    AsciiLowerSuffix(t, j + 1);
    assert LastSegment(p) == t[j + 1..];
    assert LastSegment(AsciiLower(p)) == lt[j + 1..];
  }

  lemma {:induction false} TrimLower(p: string)
    ensures TrimTrailingSlashes(AsciiLower(p)) == AsciiLower(TrimTrailingSlashes(p))
  {
    if p != [] {
      var lp := AsciiLower(p);
      if p[|p| - 1] == '/' {
        AsciiLowerSlice(p, 0, |p| - 1);
        assert lp[..|lp| - 1] == AsciiLower(p[..|p| - 1]);
        TrimLower(p[..|p| - 1]);
      }
    }
  }

  /** Lower-casing keeps the position of the last '/' or '.'. */
  lemma LastIndexOfLower(s: string, c: char)
    requires c == '/' || c == '.'
    ensures LastIndexOf(AsciiLower(s), c) == LastIndexOf(s, c)
  {
    var ls := AsciiLower(s);
    var k := LastIndexOf(s, c);
    if k == -1 {
      assert forall i :: 0 <= i < |ls| ==> ls[i] != c;
    } else {
      assert forall i :: k < i < |s| ==> s[i] != c;
      assert forall i :: k < i < |s| ==> ls[i] != c;
      assert c !in ls[k + 1..];
      LastIndexOfAt(ls, c, k);
    }
  }

  /** `data:${mimeType};base64,${payload}`. */
  function DataUri(mime: string, payload: string): (r: string)
    ensures |r| == |mime| + |payload| + 13
    ensures r[..|mime| + 5] == "data:" + mime && r[|mime| + 5..] == ";base64," + payload
  {
    "data:" + mime + ";base64," + payload
  }

  /** Reads a base64 data URI back into its media type and payload. */
  function ParseDataUri(uri: string): (r: Option<(string, string)>)
    ensures r.Some? ==> ';' !in r.value.0 && uri == DataUri(r.value.0, r.value.1)
  {
    if |uri| < 5 || uri[..5] != "data:" then None
    else
      var rest := uri[5..];
      var mime := BeforeFirst(rest, ';');
      var after := rest[|mime|..];
      if |after| < 8 || after[..8] != ";base64," then None
      else
        assert uri == "data:" + mime + after[..8] + after[8..];
        Some((mime, after[8..]))
  }

  /** Every media type the lookup yields reads back from the URI. */
  lemma {:induction false} DataUriRoundTrip(mime: string, payload: string)
    requires ';' !in mime
    ensures ParseDataUri(DataUri(mime, payload)) == Some((mime, payload))
  {
    var uri := DataUri(mime, payload);
    assert uri[..5] == "data:";
    var rest := uri[5..];
    assert rest == mime + (";base64," + payload);
    BeforeFirstStops(mime, ';', "base64," + payload);
    assert mime + [';'] + ("base64," + payload) == rest;
  }

  /**
   * `getImageAsBase64` once the path is resolved: `fs.access` and then
   * `fs.readFile` may fail, and either error is rethrown as it is; on
   * success the URI carries the path's MIME type and the encoded bytes.
   */
  function GetImageAsBase64(absolutePath: string, access: Outcome<string>,
                            contents: Result<seq<byte>, string>,
                            base64: seq<byte> -> string): (r: Result<string, string>)
    ensures r.Failure? <==> access.Fail? || contents.Failure?
    ensures access.Fail? ==> r == Failure(access.error)
    ensures access.Pass? && contents.Failure? ==> r == Failure(contents.error)
    ensures r.Success? ==> ParseDataUri(r.value) == Some((MimeType(absolutePath), base64(contents.value)))
  {
    if access.Fail? then Failure(access.error)
    else if contents.Failure? then Failure(contents.error)
    else
      DataUriRoundTrip(MimeType(absolutePath), base64(contents.value));
      Success(DataUri(MimeType(absolutePath), base64(contents.value)))
  }
}
