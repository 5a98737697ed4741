/**
 * The sequential steps of `start_analysis` in src-tauri/src/commands/analysis.rs
 * around the grouping pass: the file-extension whitelist, the early return on
 * an empty photo list, the hashing stage (an input here), the early return when
 * the analysis was cancelled, and the grouping pass itself.
 */
module Analysis {
  import opened Wrappers
  import opened Hamming
  import opened Grouping

  /** The extensions, in lower case, of the files the analysis looks at. */
  const SUPPORTED_EXTENSIONS: seq<string> := ["jpg", "jpeg", "png", "webp", "bmp", "gif"]

  /** The photo count is reported as a 32-bit unsigned integer. */
  const U32_MODULUS: nat := 0x1_0000_0000

  /** The position of the last `c` among the first `n` characters of `s`, or
      -1 when there is none. */
  function LastIndexOf(s: string, c: char, n: nat): (k: int)
    requires n <= |s|
    ensures -1 <= k < n
    ensures k >= 0 ==> s[k] == c
    ensures forall j :: k < j < n ==> s[j] != c
  {
    if n == 0 then -1
    else if s[n - 1] == c then n - 1
    else LastIndexOf(s, c, n - 1)
  }

  /** The part of `s` after the last occurrence of `c`; all of `s` when `c`
      does not occur. */
  function AfterLast(s: string, c: char): (r: string)
    ensures |r| <= |s| && r == s[|s| - |r|..]
    ensures c !in r
    ensures |r| < |s| ==> s[|s| - |r| - 1] == c
  {
    s[LastIndexOf(s, c, |s|) + 1..]
  }

  /** The final component of a path, separated by `/`. */
  function FileName(path: string): string
  {
    AfterLast(path, '/')
  }

  /**
   * The extension of a file name as Rust's `Path::extension` defines it: the
   * text after the last `.`, and none when there is no `.`, when the only `.`
   * is the first character (a hidden file such as `.jpg`), or for `..`.
   */
  function Extension(name: string): Option<string>
  {
    if name == ".." then None
    else
      var after := AfterLast(name, '.');
      if |after| + 1 >= |name| then None else Some(after)
  }

  /** A character in lower case, for ASCII letters. */
  function LowerChar(c: char): (r: char)
    ensures 'A' <= c <= 'Z' ==> r as int == c as int + 32 && 'a' <= r <= 'z'
    ensures !('A' <= c <= 'Z') ==> r == c
  {
    if 'A' <= c <= 'Z' then (c as int + ('a' as int - 'A' as int)) as char else c
  }

  /** A string in lower case, for ASCII letters. */
  function Lower(s: string): (r: string)
    ensures |r| == |s|
    ensures forall i :: 0 <= i < |r| ==> !('A' <= r[i] <= 'Z')
    ensures forall i :: 0 <= i < |s| ==>
      r[i] == s[i] || ('A' <= s[i] <= 'Z' && r[i] as int == s[i] as int + 32)
  {
    seq(|s|, i requires 0 <= i < |s| => LowerChar(s[i]))
  }

  /** `ext` spells the lower-case word `e` with any of its letters in upper case. */
  predicate EqualIgnoringCase(ext: string, e: string)
  {
    |ext| == |e| && forall i :: 0 <= i < |e| ==> ext[i] == e[i] || ext[i] as int + 32 == e[i] as int
  }

  /** Every supported extension is written in lower-case ASCII letters. */
  lemma SupportedExtensionsLowerCase()
    ensures forall e, i :: e in SUPPORTED_EXTENSIONS && 0 <= i < |e| ==> 'a' <= e[i] <= 'z'
  {
  }

  /** An extension passes the whitelist test exactly when it is one of the
      supported extensions up to the case of its letters. */
  lemma WhitelistIgnoresCase(ext: string)
    ensures Lower(ext) in SUPPORTED_EXTENSIONS <==>
      exists e :: e in SUPPORTED_EXTENSIONS && EqualIgnoringCase(ext, e)
  {
    if Lower(ext) in SUPPORTED_EXTENSIONS {
      assert EqualIgnoringCase(ext, Lower(ext));
    }
    if exists e :: e in SUPPORTED_EXTENSIONS && EqualIgnoringCase(ext, e) {
      var e :| e in SUPPORTED_EXTENSIONS && EqualIgnoringCase(ext, e);
      SupportedExtensionsLowerCase();
      forall i | 0 <= i < |e|
        ensures Lower(ext)[i] == e[i]
      {
        assert 'a' <= e[i] <= 'z';
      }
      assert Lower(ext) == e;
    }
  }

  /** The file at `path` is analysed: its extension, in lower case, is one of
      the supported ones. */
  predicate IsSupportedPath(path: string)
  {
    match Extension(FileName(path))
    case None => false
    case Some(ext) => Lower(ext) in SUPPORTED_EXTENSIONS
  }

  /** The walked files that the analysis keeps, in walk order. */
  function SupportedPaths(files: seq<string>): seq<string>
  {
    if files == [] then []
    else
      SupportedPaths(files[..|files| - 1])
      + (if IsSupportedPath(files[|files| - 1]) then [files[|files| - 1]] else [])
  }

  /** What the hashing stage learns of one path: the file's metadata could not
      be read (the photo is dropped), or it could, with a hash when the image
      could be decoded. */
  datatype Probe = NoMetadata | Probed(hash: Option<Hash>)

  /** The hashing stage: paths whose metadata could be read, in input order,
      each with its hash when the image could be decoded. */
  function HashPhotos(paths: seq<string>, probe: string -> Probe): (r: seq<PhotoWithHash>)
    ensures |r| <= |paths|
    ensures forall ph :: ph in r ==> ph.path in paths && probe(ph.path) == Probed(ph.hash)
    ensures forall p :: p in paths && probe(p).Probed? ==> PhotoWithHash(p, probe(p).hash) in r
  {
    if paths == [] then []
    else
      match probe(paths[0])
      case NoMetadata => HashPhotos(paths[1..], probe)
      case Probed(h) => [PhotoWithHash(paths[0], h)] + HashPhotos(paths[1..], probe)
  }

  /** The extension of a name is exactly the text after a `.` that is not its
      first character and after which no `.` follows. */
  lemma ExtensionIsTextAfterLastDot(name: string, e: string)
    ensures Extension(name) == Some(e) <==>
      name != ".." && exists k :: 0 < k < |name| && name[k] == '.' && name[k + 1..] == e && '.' !in e
  {
    var after := AfterLast(name, '.');
    if Extension(name) == Some(e) {
      var k := |name| - |after| - 1;
      assert name[k] == '.' && name[k + 1..] == e;
    }
    if name != ".." && exists k :: 0 < k < |name| && name[k] == '.' && name[k + 1..] == e && '.' !in e {
      var k :| 0 < k < |name| && name[k] == '.' && name[k + 1..] == e && '.' !in e;
      AfterLastUnique(name, '.', k);
    }
  }

  /** The text after an occurrence of `c` that no other `c` follows is the
      text after the last `c`. */
  lemma AfterLastUnique(s: string, c: char, k: nat)
    requires k < |s| && s[k] == c && c !in s[k + 1..]
    ensures AfterLast(s, c) == s[k + 1..]
  {
  }

  /** A kept path is a walked path with a supported extension, and every such
      path is kept. */
  lemma {:induction false} SupportedPathsMembers(files: seq<string>)
    ensures |SupportedPaths(files)| <= |files|
    ensures forall p :: p in SupportedPaths(files) <==> p in files && IsSupportedPath(p)
  {
    if files != [] {
      var init, last := files[..|files| - 1], files[|files| - 1];
      SupportedPathsMembers(init);
      assert files == init + [last];
      var kept := IsSupportedPath(last);
      assert SupportedPaths(files) == SupportedPaths(init) + (if kept then [last] else []);
    }
  }

  /** The collection loop over the walked files: a file is kept when its
      lower-cased extension is a supported one. */
  method CollectPhotoPaths(files: seq<string>) returns (photoPaths: seq<string>)
    ensures photoPaths == SupportedPaths(files)
  {
    photoPaths := [];
    for n := 0 to |files|
      invariant photoPaths == SupportedPaths(files[..n])
    {
      assert files[..n + 1][..n] == files[..n];
      match Extension(FileName(files[n])) {
        case None =>
        case Some(ext) =>
          if Lower(ext) in SUPPORTED_EXTENSIONS {
            photoPaths := photoPaths + [files[n]];
          }
      }
    }
    assert files[..|files|] == files;
  }

  /**
   * `start_analysis` once the directories are walked: `files` are the walked
   * regular files in walk order, `probe` is what the hashing stage finds for
   * each path, and `cancelled` is the cancellation flag as read after hashing.
   * The photo count is converted to 32 bits before the emptiness test.
   */
  method StartAnalysis(files: seq<string>, probe: string -> Probe, cancelled: bool)
    returns (groups: seq<SimilarityGroup>)
    ensures |SupportedPaths(files)| % U32_MODULUS == 0 ==> groups == []
    ensures cancelled ==> groups == []
    ensures |SupportedPaths(files)| % U32_MODULUS != 0 && !cancelled ==>
      groups == GroupsOf(HashPhotos(SupportedPaths(files), probe))
  {
    var photoPaths := CollectPhotoPaths(files);
    var total := |photoPaths| % U32_MODULUS;
    if total == 0 {
      return [];
    }
    var photosWithHashes := HashPhotos(photoPaths, probe);
    if cancelled {
      return [];
    }
    groups := GroupSimilarPhotos(photosWithHashes);
  }

  /** When no walked file has a supported extension no photo is kept, so the
      analysis returns no group. */
  lemma {:induction false} NoSupportedFileNoPhotos(files: seq<string>)
    requires forall p :: p in files ==> !IsSupportedPath(p)
    ensures SupportedPaths(files) == []
  {
    if files != [] {
      NoSupportedFileNoPhotos(files[..|files| - 1]);
      assert files[|files| - 1] in files;
    }
  }

  /** A grouped index points at a hashed photo. */
  lemma GroupedPhotoHashed(photos: seq<PhotoWithHash>, g: SimilarityGroup, k: nat)
    requires g in GroupsOf(photos) && k in g.photos
    ensures k < |photos| && photos[k].hash.Some?
  {
    UnhashedNeverGrouped(photos);
  }

  /** `photo` comes from a walked file with a supported extension, whose image
      the hashing stage decoded to the photo's hash. */
  predicate FromDecodedSupportedFile(files: seq<string>, probe: string -> Probe, photo: PhotoWithHash)
  {
    && photo.hash.Some?
    && photo.path in files && IsSupportedPath(photo.path)
    && probe(photo.path) == Probed(photo.hash)
  }

  /** Every photo of every group of `photos` comes from a walked file with a
      supported extension whose image the hashing stage decoded. */
  predicate GroupedFromDecodedSupportedFiles(files: seq<string>, probe: string -> Probe, photos: seq<PhotoWithHash>)
  {
    forall g, m :: g in GroupsOf(photos) && 0 <= m < |g.photos| ==>
      g.photos[m] < |photos| && FromDecodedSupportedFile(files, probe, photos[g.photos[m]])
  }

  /** When every photo comes from a walked file with a supported extension,
      with what the hashing stage found for it, so does every grouped photo. */
  lemma GroupedFromGoodPhotos(files: seq<string>, probe: string -> Probe, photos: seq<PhotoWithHash>)
    requires forall ph :: ph in photos ==>
      ph.path in files && IsSupportedPath(ph.path) && probe(ph.path) == Probed(ph.hash)
    ensures GroupedFromDecodedSupportedFiles(files, probe, photos)
  {
    forall g, m | g in GroupsOf(photos) && 0 <= m < |g.photos|
      ensures g.photos[m] < |photos| && FromDecodedSupportedFile(files, probe, photos[g.photos[m]])
    {
      var k := g.photos[m];
      GroupedPhotoHashed(photos, g, k);
      assert photos[k] in photos;
    }
  }

  /** Every photo in a group of the analysis is a walked file with a supported
      extension whose image the hashing stage decoded. */
  lemma {:induction false} GroupedPhotosAreSupportedAndHashed(files: seq<string>, probe: string -> Probe)
    ensures GroupedFromDecodedSupportedFiles(files, probe, HashPhotos(SupportedPaths(files), probe))
  {
    var kept := SupportedPaths(files);
    SupportedPathsMembers(files);
    GroupedFromGoodPhotos(files, probe, HashPhotos(kept, probe));
  }

  /** An upper-case extension is accepted. */
  lemma UpperCaseExtensionAccepted()
    ensures IsSupportedPath("a/B.JPG")
  {
    AfterLastUnique("a/B.JPG", '/', 1);
    assert FileName("a/B.JPG") == "B.JPG";
    AfterLastUnique("B.JPG", '.', 1);
    assert Extension("B.JPG") == Some("JPG");
    var low := Lower("JPG");
    assert low[0] == 'j' && low[1] == 'p' && low[2] == 'g';
    assert low == "jpg";
  }

  /** A hidden file whose only `.` is its first character has no extension. */
  lemma HiddenFileHasNoExtension()
    ensures !IsSupportedPath("a/.jpg")
  {
    AfterLastUnique("a/.jpg", '/', 1);
    assert FileName("a/.jpg") == ".jpg";
    AfterLastUnique(".jpg", '.', 0);
  }

  /** Only the last of several extensions counts. */
  lemma OnlyLastExtensionCounts()
    ensures !IsSupportedPath("a/b.jpg.x")
  {
    AfterLastUnique("a/b.jpg.x", '/', 1);
    assert FileName("a/b.jpg.x") == "b.jpg.x";
    AfterLastUnique("b.jpg.x", '.', 5);
    assert Extension("b.jpg.x") == Some("x");
    assert |Lower("x")| == 1;
  }

  /** A `.` in a directory name gives the file no extension. */
  lemma DirectoryDotIgnored()
    ensures !IsSupportedPath("a.jpg/b")
  {
    AfterLastUnique("a.jpg/b", '/', 5);
    assert FileName("a.jpg/b") == "b";
  }
}
