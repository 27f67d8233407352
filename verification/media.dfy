/** The file-name rules of the two media endpoints (backend/main.py): the
    extension an upload keeps, the extension a fetched file gets from its
    content type, and the URL under which either is served. The file writes, the
    random name and the download itself are inputs of the model. */
module Media {
  import opened Options
  import opened Strings
  import opened Http

  /** Python's `str.rfind` for one character: the last index holding `c`, or -1. */
  function RFind(s: string, c: char): (r: int)
    ensures -1 <= r < |s|
    ensures r >= 0 ==> s[r] == c
    ensures forall i :: r < i < |s| ==> s[i] != c
  {
    if s == [] then -1
    else if s[|s| - 1] == c then |s| - 1
    else RFind(s[..|s| - 1], c)
  }

  /** Some character of `s[lo..hi]` is not a dot. */
  predicate NonDotBetween(s: string, lo: int, hi: int)
    requires 0 <= lo && hi <= |s|
  {
    exists i :: lo <= i < hi && s[i] != '.'
  }

  /** The last path component of `p` is more than dots: the condition under
      which a final dot starts an extension rather than a hidden file's name. */
  predicate HasName(p: string) {
    NonDotBetween(p, RFind(p, '/') + 1, |p|)
  }

  /** `os.path.splitext(p)[1]` on POSIX: from the last dot on, when that dot
      lies in the last path component and something other than dots comes
      before it there; otherwise nothing. */
  function SplitExt(p: string): (r: string)
    ensures r != [] ==> r[0] == '.' && '.' !in r[1..] && '/' !in r
    ensures r != [] ==> EndsWith(p, r) && HasName(p[..|p| - |r|])
  {
    var sep := RFind(p, '/');
    var dot := RFind(p, '.');
    if dot > sep && NonDotBetween(p, sep + 1, dot) then
      var r := p[dot..];
      assert forall i :: 0 <= i < |r| ==> r[i] == p[dot + i];
      NameBeforeDot(p, sep, dot);
      r
    else []
  }

  lemma NameBeforeDot(p: string, sep: int, dot: int)
    requires -1 <= sep < dot < |p| && sep == RFind(p, '/')
    requires NonDotBetween(p, sep + 1, dot)
    ensures HasName(p[..dot])
  {
    var stem := p[..dot];
    var i :| sep + 1 <= i < dot && p[i] != '.';
    RFindPrefix(p, dot, '/');
    assert stem[i] == p[i];
  }

  /** Cutting off a tail that does not hold `c` leaves its last index in place. */
  lemma RFindPrefix(p: string, n: nat, c: char)
    requires n <= |p| && RFind(p, c) < n
    ensures RFind(p[..n], c) == RFind(p, c)
  {
    var a := RFind(p[..n], c);
    var b := RFind(p, c);
    if b >= 0 {
      assert p[..n][b] == p[b];
    }
    if a >= 0 {
      assert p[..n][a] == p[a];
    }
  }

  /** A name with a non-dot character in its last component, then a dot and a
      text without dots or slashes: that dot and text are the extension. */
  lemma SplitExtOf(stem: string, ext: string)
    requires HasName(stem)
    requires '.' !in ext && '/' !in ext
    ensures SplitExt(stem + ['.'] + ext) == ['.'] + ext
  {
    var p := stem + ['.'] + ext;
    var dot := |stem|;
    assert p[dot] == '.';
    forall i | dot < i < |p| ensures p[i] != '.' && p[i] != '/' {
      assert p[i] == ext[i - dot - 1];
    }
    assert RFind(p, '.') == dot;
    var sep := RFind(stem, '/');
    assert RFind(p, '/') == sep by {
      var b := RFind(p, '/');
      assert b < dot;
      if sep >= 0 {
        assert p[sep] == stem[sep];
      }
      if b >= 0 {
        assert stem[b] == p[b];
      }
    }
    var i :| sep + 1 <= i < |stem| && stem[i] != '.';
    assert p[i] == stem[i];
    assert p[dot..] == ['.'] + ext;
  }

  /** A hidden file's name without a further dot keeps no extension. */
  lemma HiddenFileHasNoExt(name: string)
    requires '.' !in name && '/' !in name
    ensures SplitExt(['.'] + name) == []
  {
    var p := ['.'] + name;
    forall i | 1 <= i < |p| ensures p[i] != '.' && p[i] != '/' {
      assert p[i] == name[i - 1];
    }
    assert p[0] == '.';
    assert RFind(p, '.') == 0;
  }

  /** The extension `upload_image` gives the stored file: the upload's own
      extension, or ".jpg" when it has none. */
  function UploadExtension(filename: string): (r: string)
    ensures |r| >= 1 && r[0] == '.' && '/' !in r
    ensures SplitExt(filename) != [] ==> r == SplitExt(filename)
    ensures SplitExt(filename) == [] ==> r == ".jpg"
  {
    var e := SplitExt(filename);
    if e == [] then ".jpg" else e
  }

  /** The URL under which a stored file is served, for a random name `id`
      (the `uuid4` text) and an extension. */
  function MediaUrl(id: string, ext: string): (r: string)
    ensures StartsWith(r, "/media/")
    ensures EndsWith(r, ext)
    ensures |r| == 7 + |id| + |ext|
  {
    var r := "/media/" + id + ext;
    assert r[..7] == "/media/";
    assert r[|r| - |ext|..] == ext;
    r
  }

  /** The served URL of an upload: "/media/", the random name, then the extension. */
  function UploadUrl(id: string, filename: string): (r: string)
    ensures r == MediaUrl(id, UploadExtension(filename))
  {
    MediaUrl(id, UploadExtension(filename))
  }

  /** An upload named like "photo.png" keeps its extension; one without an
      extension, or a hidden file like ".profile", is stored as ".jpg". */
  lemma UploadKeepsExtension(id: string, stem: string, ext: string)
    requires HasName(stem) && '.' !in ext && '/' !in ext
    ensures UploadUrl(id, stem + ['.'] + ext) == "/media/" + id + ['.'] + ext
  {
    SplitExtOf(stem, ext);
    var e := ['.'] + ext;
    assert UploadExtension(stem + ['.'] + ext) == e;
    assert "/media/" + id + e == "/media/" + id + ['.'] + ext;
  }

  lemma UploadDefaultsToJpg(id: string, name: string)
    requires '.' !in name && '/' !in name
    ensures UploadUrl(id, name) == "/media/" + id + ".jpg"
    ensures UploadUrl(id, ['.'] + name) == "/media/" + id + ".jpg"
  {
    assert RFind(name, '.') == -1;
    HiddenFileHasNoExt(name);
  }

  /** The extension `fetch_media` picks from the response's content type: the
      first of these substrings that occurs, in this order, and ".jpg" when none does. */
  function ContentTypeExtension(contentType: string): (r: string) {
    if Contains(contentType, "image/png") then ".png"
    else if Contains(contentType, "image/jpeg") then ".jpg"
    else if Contains(contentType, "image/webp") then ".webp"
    else if Contains(contentType, "image/gif") then ".gif"
    else if Contains(contentType, "video/mp4") then ".mp4"
    else if Contains(contentType, "video/webm") then ".webm"
    else ".jpg"
  }

  /** The content types and their extensions, in the order they are tried. */
  const Extensions: seq<(string, string)> := [
    ("image/png", ".png"), ("image/jpeg", ".jpg"), ("image/webp", ".webp"),
    ("image/gif", ".gif"), ("video/mp4", ".mp4"), ("video/webm", ".webm")]

  /** Entry `i` is the first whose type occurs in the content type. */
  predicate FirstHit(contentType: string, table: seq<(string, string)>, i: int) {
    && 0 <= i < |table| && Contains(contentType, table[i].0)
    && forall j :: 0 <= j < i ==> !Contains(contentType, table[j].0)
  }

  /** The extension of the first table entry whose type occurs in the content
      type, or `default` when none does. */
  function FirstMatch(contentType: string, table: seq<(string, string)>, default: string): (r: string)
    ensures (forall i :: 0 <= i < |table| ==> !Contains(contentType, table[i].0)) ==> r == default
    ensures forall i :: FirstHit(contentType, table, i) ==> r == table[i].1
  {
    if table == [] then default
    else if Contains(contentType, table[0].0) then table[0].1
    else
      assert forall i :: 1 <= i < |table| ==> table[i] == table[1..][i - 1];
      FirstMatch(contentType, table[1..], default)
  }

  lemma FirstMatchCons(contentType: string, table: seq<(string, string)>, default: string)
    requires table != []
    ensures FirstMatch(contentType, table, default) ==
      if Contains(contentType, table[0].0) then table[0].1 else FirstMatch(contentType, table[1..], default)
  {
  }

  /** The if-chain of `fetch_media` is the first match in the table, defaulting to ".jpg". */
  lemma ChainIsFirstMatch(contentType: string)
    ensures ContentTypeExtension(contentType) == FirstMatch(contentType, Extensions, ".jpg")
  {
    var t := Extensions;
    FirstMatchCons(contentType, t, ".jpg");
    FirstMatchCons(contentType, t[1..], ".jpg");
    FirstMatchCons(contentType, t[2..], ".jpg");
    FirstMatchCons(contentType, t[3..], ".jpg");
    FirstMatchCons(contentType, t[4..], ".jpg");
    FirstMatchCons(contentType, t[5..], ".jpg");
    assert t[1..][1..] == t[2..] && t[2..][1..] == t[3..] && t[3..][1..] == t[4..];
    assert t[4..][1..] == t[5..] && |t[5..][1..]| == 0;
  }
}
