/** lib/uploads.ts: folder sanitising, extension choice, and the checks and
    path building of `saveImageToPublic`.  The directory and file writes
    are not modelled; the clock and the UUID are parameters. */
module Uploads {
  import opened Results
  import opened Text

  /** `8 * 1024 * 1024`, the default `maxSizeBytes`. */
  const DefaultMaxSizeBytes: int := 8 * 1024 * 1024

  /** `IMAGE_EXTENSIONS`. */
  const ImageExtensions: map<string, string> := map[
    "image/jpeg" := ".jpg",
    "image/png" := ".png",
    "image/webp" := ".webp",
    "image/gif" := ".gif",
    "image/avif" := ".avif"
  ]

  const FallbackExtension: string := ".jpg"
  const UploadsRoot: string := "uploads"

  // ---------------------------------------------------------------------
  // normalizeFolder
  // ---------------------------------------------------------------------

  predicate IsAlnum(c: char) {
    'a' <= c <= 'z' || 'A' <= c <= 'Z' || '0' <= c <= '9'
  }

  /** The characters `[a-zA-Z0-9_-]` that survive in a folder segment. */
  predicate IsFolderChar(c: char) {
    IsAlnum(c) || c == '_' || c == '-'
  }

  /** A non-empty run of folder characters: in particular never `.` or `..`. */
  predicate IsSafeSegment(s: string) {
    s != [] && forall i :: 0 <= i < |s| ==> IsFolderChar(s[i])
  }

  /** `part.replace(/[^a-zA-Z0-9_-]/g, "")`: keeps the folder characters,
      in order, and nothing else. */
  function StripPart(part: string): (r: string)
    ensures |r| <= |part|
    ensures forall i :: 0 <= i < |r| ==> IsFolderChar(r[i])
    ensures (forall i :: 0 <= i < |part| ==> IsFolderChar(part[i])) ==> r == part
    ensures (forall i :: 0 <= i < |part| ==> !IsFolderChar(part[i])) ==> r == []
    decreases |part|
  {
    if part == [] then []
    else if IsFolderChar(part[0]) then [part[0]] + StripPart(part[1..])
    else StripPart(part[1..])
  }

  /** Cleaning works character by character: cleaning a concatenation
      concatenates the cleaned pieces.  With the one-character cases of
      the contract above, this pins `StripPart` down completely. */
  lemma {:induction false} StripPartAppend(a: string, b: string)
    ensures StripPart(a + b) == StripPart(a) + StripPart(b)
    decreases |a|
  {
    if a != [] {
      assert (a + b)[0] == a[0];
      assert (a + b)[1..] == a[1..] + b;
      StripPartAppend(a[1..], b);
    } else {
      assert a + b == b;
    }
  }

  /** `.map(part => part.replace(...))`. */
  function StripParts(parts: seq<string>): (r: seq<string>)
    ensures |r| == |parts|
    ensures forall i :: 0 <= i < |r| ==> r[i] == StripPart(parts[i])
  {
    seq(|parts|, i requires 0 <= i < |parts| => StripPart(parts[i]))
  }

  /** `.filter(Boolean)`: drops the empty strings and keeps the rest in order. */
  function DropEmpty(parts: seq<string>): (r: seq<string>)
    ensures |r| <= |parts|
    ensures forall i :: 0 <= i < |r| ==> r[i] != [] && r[i] in parts
    ensures (forall i :: 0 <= i < |parts| ==> parts[i] != []) ==> r == parts
    decreases |parts|
  {
    if parts == [] then []
    else if parts[0] == [] then DropEmpty(parts[1..])
    else [parts[0]] + DropEmpty(parts[1..])
  }

  /** Filtering a concatenation filters each piece: with the one-element
      cases of the contract above, nothing non-empty is lost and the order
      is kept. */
  lemma {:induction false} DropEmptyAppend(a: seq<string>, b: seq<string>)
    ensures DropEmpty(a + b) == DropEmpty(a) + DropEmpty(b)
    decreases |a|
  {
    if a != [] {
      assert (a + b)[0] == a[0];
      assert (a + b)[1..] == a[1..] + b;
      DropEmptyAppend(a[1..], b);
    } else {
      assert a + b == b;
    }
  }

  /** The safe segments `normalizeFolder` keeps, before they are joined. */
  function FolderSegments(folder: string): (r: seq<string>)
    ensures forall i :: 0 <= i < |r| ==> IsSafeSegment(r[i])
  {
    var r := DropEmpty(StripParts(Split(folder, '/')));
    assert forall i :: 0 <= i < |r| ==> r[i] != [] && r[i] in StripParts(Split(folder, '/'));
    r
  }

  /** A text without a slash is one part: it yields its cleaned self, or
      nothing when no folder character is left. */
  lemma FolderSegmentsOfPart(part: string)
    requires '/' !in part
    ensures FolderSegments(part) == if StripPart(part) == [] then [] else [StripPart(part)]
  {
    SplitWithoutSeparator(part, '/');
    assert StripParts([part]) == [StripPart(part)];
  }

  /** The segments of `a/b` are the segments of `a` followed by those of
      `b`: slashes only separate, and each part is cleaned on its own. */
  lemma FolderSegmentsAtSlash(a: string, b: string)
    ensures FolderSegments(a + "/" + b) == FolderSegments(a) + FolderSegments(b)
  {
    var pa, pb := Split(a, '/'), Split(b, '/');
    assert a + "/" + b == a + ['/'] + b;
    SplitAtSeparator(a, b, '/');
    assert StripParts(pa + pb) == StripParts(pa) + StripParts(pb);
    DropEmptyAppend(StripParts(pa), StripParts(pb));
  }

  /** `normalizeFolder(folder)`: the folder's safe segments joined by single
      slashes; it is empty exactly when no segment survives, and otherwise
      splits back into exactly those segments. */
  function NormalizeFolder(folder: string): (r: string)
    ensures forall i :: 0 <= i < |r| ==> IsFolderChar(r[i]) || r[i] == '/'
    ensures r == [] <==> FolderSegments(folder) == []
    ensures r != [] ==> Split(r, '/') == FolderSegments(folder)
  {
    var segs := FolderSegments(folder);
    JoinChars(segs, '/');
    JoinSplitsBack(segs);
    Join(segs, '/')
  }

  /** A join of safe segments is empty only when there are none, and
      otherwise splits back into them. */
  lemma JoinSplitsBack(segs: seq<string>)
    requires forall i :: 0 <= i < |segs| ==> IsSafeSegment(segs[i])
    ensures Join(segs, '/') == [] <==> segs == []
    ensures segs != [] ==> Split(Join(segs, '/'), '/') == segs
  {
    if segs != [] {
      SegmentsHaveNoSlash(segs);
      JoinShape(segs, '/');
      SplitJoin(segs, '/');
    }
  }

  /** Safe segments hold no slash. */
  lemma SegmentsHaveNoSlash(segs: seq<string>)
    requires forall i :: 0 <= i < |segs| ==> IsSafeSegment(segs[i])
    ensures forall i :: 0 <= i < |segs| ==> segs[i] != [] && '/' !in segs[i]
  {
    forall i | 0 <= i < |segs| ensures segs[i] != [] && '/' !in segs[i] {
      assert IsSafeSegment(segs[i]);
    }
  }

  /** A folder that is already safe segments joined by slashes is kept as
      it is. */
  lemma NormalizeSafeFolder(segs: seq<string>)
    requires forall i :: 0 <= i < |segs| ==> IsSafeSegment(segs[i])
    ensures NormalizeFolder(Join(segs, '/')) == Join(segs, '/')
  {
    var f := Join(segs, '/');
    if segs == [] {
      assert Split(f, '/') == [[]];
      assert StripParts([[]]) == [[]];
      assert DropEmpty([[]]) == [];
    } else {
      SegmentsHaveNoSlash(segs);
      SplitJoin(segs, '/');
      assert StripParts(segs) == segs by {
        forall i | 0 <= i < |segs| ensures StripPart(segs[i]) == segs[i] {
          assert IsSafeSegment(segs[i]);
        }
      }
      assert DropEmpty(segs) == segs;
    }
    assert FolderSegments(f) == segs;
  }

  /** Every character of a join is a character of some part or the separator. */
  lemma {:induction false} JoinChars(parts: seq<string>, sep: char)
    requires forall i :: 0 <= i < |parts| ==> IsSafeSegment(parts[i])
    ensures forall i :: 0 <= i < |Join(parts, sep)| ==>
              IsFolderChar(Join(parts, sep)[i]) || Join(parts, sep)[i] == sep
    decreases |parts|
  {
    if |parts| > 1 {
      JoinChars(parts[1..], sep);
      var j := Join(parts[1..], sep);
      var r := Join(parts, sep);
      assert r == parts[0] + [sep] + j;
      forall i | 0 <= i < |r| ensures IsFolderChar(r[i]) || r[i] == sep {
        if i < |parts[0]| {
          assert r[i] == parts[0][i];
        } else if i > |parts[0]| {
          assert r[i] == j[i - |parts[0]| - 1];
        }
      }
    }
  }

  /** A join of non-empty parts free of the separator neither starts nor
      ends with it and never holds it twice in a row. */
  lemma {:induction false} JoinShape(parts: seq<string>, sep: char)
    requires |parts| >= 1
    requires forall i :: 0 <= i < |parts| ==> parts[i] != [] && sep !in parts[i]
    ensures var r := Join(parts, sep);
            r != [] && r[0] != sep && r[|r| - 1] != sep &&
            forall i :: 0 <= i < |r| - 1 ==> !(r[i] == sep && r[i + 1] == sep)
    decreases |parts|
  {
    if |parts| > 1 {
      JoinShape(parts[1..], sep);
      var p := parts[0];
      var j := Join(parts[1..], sep);
      var r := Join(parts, sep);
      assert r == p + [sep] + j;
      assert r[0] == p[0];
      assert r[|r| - 1] == j[|j| - 1];
      forall i | 0 <= i < |r| - 1 ensures !(r[i] == sep && r[i + 1] == sep) {
        if i < |p| {
          assert r[i] == p[i];
        } else if i == |p| {
          assert r[i + 1] == j[0];
        } else {
          assert r[i] == j[i - |p| - 1] && r[i + 1] == j[i - |p|];
        }
      }
    } else {
      assert Join(parts, sep) == parts[0];
    }
  }

  /** The folder `normalizeFolder` returns is either empty or a run of safe
      segments separated by single slashes: no leading or trailing slash,
      no empty segment, and so no `.` or `..` segment. */
  lemma NormalizedFolderShape(folder: string)
    ensures var r := NormalizeFolder(folder);
            r != [] ==>
              r[0] != '/' && r[|r| - 1] != '/' &&
              (forall i :: 0 <= i < |r| - 1 ==> !(r[i] == '/' && r[i + 1] == '/')) &&
              (forall i :: 0 <= i < |Split(r, '/')| ==> IsSafeSegment(Split(r, '/')[i]))
  {
    var segs := FolderSegments(folder);
    if segs != [] {
      SegmentsHaveNoSlash(segs);
      JoinShape(segs, '/');
      SplitJoin(segs, '/');
    }
  }

  /** `normalizeFolder(normalizeFolder(f)) == normalizeFolder(f)`. */
  lemma NormalizeFolderIdempotent(folder: string)
    ensures NormalizeFolder(NormalizeFolder(folder)) == NormalizeFolder(folder)
  {
    NormalizeSafeFolder(FolderSegments(folder));
  }

  // ---------------------------------------------------------------------
  // extensionFromFile
  // ---------------------------------------------------------------------

  /** `/\.[a-zA-Z0-9]+$/` matches at position `i` of `name`. */
  predicate ExtensionAt(name: string, i: int) {
    0 <= i && i + 1 < |name| && name[i] == '.' &&
    forall j :: i < j < |name| ==> IsAlnum(name[j])
  }

  /** Length of the longest suffix of `s` made of letters and digits. */
  function AlnumSuffixLength(s: string): (k: nat)
    ensures k <= |s|
    ensures forall j :: |s| - k <= j < |s| ==> IsAlnum(s[j])
    ensures k < |s| ==> !IsAlnum(s[|s| - k - 1])
    decreases |s|
  {
    if s == [] || !IsAlnum(s[|s| - 1]) then 0
    else
      var k := AlnumSuffixLength(s[..|s| - 1]);
      assert forall j :: |s| - 1 - k <= j < |s| - 1 ==> s[j] == s[..|s| - 1][j];
      k + 1
  }

  /** The text `fileName.match(/\.[a-zA-Z0-9]+$/)` finds, if any. */
  function TrailingExtension(name: string): (r: Option<string>)
    ensures r.Some? <==> exists i :: ExtensionAt(name, i)
    ensures r.Some? ==> ExtensionAt(name, |name| - |r.value|) && r.value == name[|name| - |r.value|..]
  {
    var k := AlnumSuffixLength(name);
    if 1 <= k < |name| && name[|name| - k - 1] == '.' then
      assert ExtensionAt(name, |name| - k - 1);
      Some(name[|name| - k - 1..])
    else
      assert forall i :: !ExtensionAt(name, i) by {
        forall i | 0 <= i < |name| ensures !ExtensionAt(name, i) {
          assert name[i] == '.' ==> !IsAlnum(name[i]);
        }
      }
      None
  }

  /** The regular expression can match at one position only. */
  lemma ExtensionAtUnique(name: string, i: int, j: int)
    requires ExtensionAt(name, i) && ExtensionAt(name, j)
    ensures i == j
  {
    assert !IsAlnum(name[i]) && !IsAlnum(name[j]);
  }

  /** `extensionFromFile(file)`: always a `.`-led extension. */
  function ExtensionFromFile(mimeType: string, name: string): (r: string)
    ensures r != [] && r[0] == '.'
    ensures mimeType in ImageExtensions ==> r == ImageExtensions[mimeType]
  {
    if mimeType in ImageExtensions then ImageExtensions[mimeType]
    else match TrailingExtension(name)
      case Some(ext) => ToLower(ext)
      case None => FallbackExtension
  }

  /** An unknown MIME type takes the file name's own extension, lowercased. */
  lemma ExtensionFromName(mimeType: string, name: string, i: int)
    requires mimeType !in ImageExtensions
    requires ExtensionAt(name, i)
    ensures ExtensionFromFile(mimeType, name) == ToLower(name[i..])
  {
    var ext := TrailingExtension(name).value;
    ExtensionAtUnique(name, i, |name| - |ext|);
  }

  /** An unknown MIME type and a name without an extension give `.jpg`. */
  lemma ExtensionFallback(mimeType: string, name: string)
    requires mimeType !in ImageExtensions
    requires forall i :: !ExtensionAt(name, i)
    ensures ExtensionFromFile(mimeType, name) == ".jpg"
  {
  }

  /** An extension never holds a slash. */
  lemma ExtensionHasNoSlash(mimeType: string, name: string)
    ensures '/' !in ExtensionFromFile(mimeType, name)
  {
    var r := ExtensionFromFile(mimeType, name);
    if mimeType !in ImageExtensions && TrailingExtension(name).Some? {
      var ext := TrailingExtension(name).value;
      var i := |name| - |ext|;
      forall j | 0 <= j < |r| ensures r[j] != '/' {
        assert r[j] == LowerChar(ext[j]);
        assert ext[j] == name[i + j];
      }
    }
  }

  // ---------------------------------------------------------------------
  // saveImageToPublic (checks and paths)
  // ---------------------------------------------------------------------

  /** The uploaded `File`: name, MIME type and size in bytes. */
  datatype ImageFile = ImageFile(name: string, mimeType: string, size: int)

  datatype UploadError = NoFile | NotAnImage | TooLarge | InvalidFolder

  /** What `saveImageToPublic` returns on success. */
  datatype StoredImage = StoredImage(url: string, fileName: string, mimeType: string, size: int)

  /** `${Date.now()}-${crypto.randomUUID()}${extension}`. */
  function StoredFileName(now: nat, uuid: string, file: ImageFile): (r: string)
    ensures r != [] && IsDigit(r[0])
    ensures exists k :: StampedName(r, now, uuid + ExtensionFromFile(file.mimeType, file.name), k)
  {
    var rest := uuid + ExtensionFromFile(file.mimeType, file.name);
    StampedNameOf(now, rest);
    DecimalString(now) + "-" + rest
  }

  /** The stamp in front of the dash reads back as the clock value. */
  lemma StampedNameOf(now: nat, rest: string)
    ensures var name := DecimalString(now) + "-" + rest;
            name != [] && IsDigit(name[0]) && StampedName(name, now, rest, |DecimalString(now)|)
  {
    var stamp := DecimalString(now);
    var name := stamp + "-" + rest;
    DecimalStringRoundTrip(now);
    assert name[..|stamp|] == stamp;
    assert name[|stamp|] == '-';
    assert name[|stamp| + 1..] == rest;
    assert name[0] == stamp[0];
  }

  /** `name` is the decimal digits of `now` in its first `k` characters, a
      dash, then `rest`. */
  ghost predicate StampedName(name: string, now: nat, rest: string, k: int) {
    0 < k < |name| && AllDigits(name[..k]) && DigitsValue(name[..k]) == now &&
    name[k] == '-' && name[k + 1..] == rest
  }

  /** `saveImageToPublic(file, folder, maxSizeBytes)` with `Date.now()` and
      `randomUUID()` passed in; `None` is a value that is not a `File`. */
  function SaveImageToPublic(file: Option<ImageFile>, folder: string, maxSizeBytes: int,
                             now: nat, uuid: string): (r: Result<StoredImage, UploadError>)
    ensures r.Ok? <==> file.Some? && 0 < file.value.size <= maxSizeBytes &&
                       "image/" <= file.value.mimeType && NormalizeFolder(folder) != []
    ensures r == Err(NoFile) <==> file.None? || file.value.size <= 0
    ensures r == Err(NotAnImage) <==> file.Some? && file.value.size > 0 && !("image/" <= file.value.mimeType)
    ensures r == Err(TooLarge) <==>
              file.Some? && file.value.size > 0 && "image/" <= file.value.mimeType && file.value.size > maxSizeBytes
    ensures r == Err(InvalidFolder) <==>
              file.Some? && 0 < file.value.size <= maxSizeBytes && "image/" <= file.value.mimeType &&
              NormalizeFolder(folder) == []
    ensures r.Ok? ==>
              var generated := StoredFileName(now, uuid, file.value);
              r.value.url == "/" + UploadsRoot + "/" + NormalizeFolder(folder) + "/" + generated &&
              r.value.fileName == (if file.value.name != [] then file.value.name else generated) &&
              r.value.mimeType == file.value.mimeType && r.value.size == file.value.size
  {
    if file.None? || file.value.size <= 0 then Err(NoFile)
    else
      var f := file.value;
      if !("image/" <= f.mimeType) then Err(NotAnImage)
      else if f.size > maxSizeBytes then Err(TooLarge)
      else
        var safeFolder := NormalizeFolder(folder);
        if safeFolder == [] then Err(InvalidFolder)
        else
          var filename := StoredFileName(now, uuid, f);
          Ok(StoredImage("/" + UploadsRoot + "/" + safeFolder + "/" + filename,
                         if f.name != [] then f.name else filename, f.mimeType, f.size))
  }

  /** Joining two non-empty lists of parts joins their joins. */
  lemma {:induction false} JoinAppend(xs: seq<string>, ys: seq<string>, sep: char)
    requires |xs| >= 1 && |ys| >= 1
    ensures Join(xs + ys, sep) == Join(xs, sep) + [sep] + Join(ys, sep)
    decreases |xs|
  {
    if |xs| > 1 {
      assert (xs + ys)[1..] == xs[1..] + ys;
      JoinAppend(xs[1..], ys, sep);
    } else {
      assert (xs + ys)[1..] == ys;
    }
  }

  /** The generated file name holds no slash when the UUID holds none. */
  lemma StoredFileNameHasNoSlash(now: nat, uuid: string, file: ImageFile)
    requires '/' !in uuid
    ensures '/' !in StoredFileName(now, uuid, file)
  {
    var name := StoredFileName(now, uuid, file);
    var d := DecimalString(now);
    var ext := ExtensionFromFile(file.mimeType, file.name);
    assert name == d + "-" + uuid + ext;
    ExtensionHasNoSlash(file.mimeType, file.name);
    forall j | 0 <= j < |name| ensures name[j] != '/' {
      if j < |d| {
        assert name[j] == d[j] && IsDigit(d[j]);
      } else if j == |d| {
        assert name[j] == '-';
      } else if j < |d| + 1 + |uuid| {
        assert name[j] == uuid[j - |d| - 1];
      } else {
        assert name[j] == ext[j - |d| - 1 - |uuid|];
      }
    }
  }

  /** `/uploads/<folder>/<name>` is the slash-join of `""`, `uploads`, the
      folder's segments and the name. */
  lemma UrlAsJoin(root: string, segs: seq<string>, name: string, sep: char)
    requires |segs| >= 1
    ensures Join([[], root] + segs + [name], sep)
         == [sep] + root + [sep] + Join(segs, sep) + [sep] + name
  {
    FolderPathAsJoin(root, segs, sep);
    JoinAppend([[], root] + segs, [name], sep);
    assert Join([name], sep) == name;
  }

  /** `/<root>/<folder>` is the join of `""`, the root and the folder's segments. */
  lemma FolderPathAsJoin(root: string, segs: seq<string>, sep: char)
    requires |segs| >= 1
    ensures Join([[], root] + segs, sep) == [sep] + root + [sep] + Join(segs, sep)
  {
    var front: seq<string> := [[], root];
    assert front[1..] == [root];
    assert Join(front, sep) == [sep] + root;
    JoinAppend(front, segs, sep);
  }

  lemma SafeSegmentHasNoSlash(s: string)
    requires IsSafeSegment(s)
    ensures '/' !in s
  {
    forall j | 0 <= j < |s| ensures s[j] != '/' {
      assert IsFolderChar(s[j]);
    }
  }

  /** Splitting `/<root>/<folder>/<name>` on slashes gives back `""`, the
      root, the folder's segments and the name. */
  lemma UrlSegments(root: string, segs: seq<string>, name: string)
    requires |segs| >= 1 && '/' !in root && '/' !in name
    requires forall i :: 0 <= i < |segs| ==> IsSafeSegment(segs[i])
    ensures Split("/" + root + "/" + Join(segs, '/') + "/" + name, '/') == [[], root] + segs + [name]
  {
    var all := [[], root] + segs + [name];
    var url := "/" + root + "/" + Join(segs, '/') + "/" + name;
    UrlAsJoin(root, segs, name, '/');
    assert Join(all, '/') == url;
    UrlPartsHaveNoSlash(root, segs, name);
    SplitJoin(all, '/');
  }

  /** No part of `/<root>/<folder>/<name>` holds a slash. */
  lemma UrlPartsHaveNoSlash(root: string, segs: seq<string>, name: string)
    requires '/' !in root && '/' !in name
    requires forall i :: 0 <= i < |segs| ==> IsSafeSegment(segs[i])
    ensures var all := [[], root] + segs + [name];
            forall i :: 0 <= i < |all| ==> '/' !in all[i]
  {
    var all := [[], root] + segs + [name];
    forall i | 0 <= i < |all| ensures '/' !in all[i] {
      if i == 0 {
        assert all[i] == [];
      } else if i == 1 {
        assert all[i] == root;
      } else if i < |all| - 1 {
        assert all[i] == segs[i - 2];
        SafeSegmentHasNoSlash(segs[i - 2]);
      } else {
        assert all[i] == name;
      }
    }
  }

  /** The stored url cannot leave the uploads directory: read as a path it
      is `/uploads/` followed by safe folder segments and then the generated
      file name, which is neither empty nor `.` nor `..` and holds no slash
      (as long as the UUID holds none, as `randomUUID` guarantees). */
  lemma UploadUrlStaysInUploads(file: Option<ImageFile>, folder: string, maxSizeBytes: int,
                                now: nat, uuid: string)
    requires '/' !in uuid
    requires SaveImageToPublic(file, folder, maxSizeBytes, now, uuid).Ok?
    ensures var parts := Split(SaveImageToPublic(file, folder, maxSizeBytes, now, uuid).value.url, '/');
            |parts| >= 4 && parts[0] == [] && parts[1] == UploadsRoot &&
            (forall i :: 2 <= i < |parts| - 1 ==> IsSafeSegment(parts[i])) &&
            parts[|parts| - 1] == StoredFileName(now, uuid, file.value) &&
            parts[|parts| - 1] != "." && parts[|parts| - 1] != ".."
  {
    var segs := FolderSegments(folder);
    var name := StoredFileName(now, uuid, file.value);
    assert NormalizeFolder(folder) == Join(segs, '/');
    assert |segs| >= 1;
    StoredFileNameHasNoSlash(now, uuid, file.value);
    SafeUrlParts(segs, name);
  }

  /** `/uploads/<segments>/<name>` splits into `""`, `uploads`, the safe
      segments and a name that is no dot segment. */
  lemma SafeUrlParts(segs: seq<string>, name: string)
    requires |segs| >= 1 && (forall i :: 0 <= i < |segs| ==> IsSafeSegment(segs[i]))
    requires '/' !in name && name != [] && IsDigit(name[0])
    ensures var parts := Split("/" + UploadsRoot + "/" + Join(segs, '/') + "/" + name, '/');
            |parts| >= 4 && parts[0] == [] && parts[1] == UploadsRoot &&
            (forall i :: 2 <= i < |parts| - 1 ==> IsSafeSegment(parts[i])) &&
            parts[|parts| - 1] == name && name != "." && name != ".."
  {
    UrlSegments(UploadsRoot, segs, name);
    var parts := [[], UploadsRoot] + segs + [name];
    assert forall i :: 2 <= i < |parts| - 1 ==> parts[i] == segs[i - 2];
    assert parts[|parts| - 1] == name;
    assert name[0] != '.';
  }
}
