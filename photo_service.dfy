/** The photo upload service: the two buffer guards, the storage key
    `userId/uuid.extension` with the extension taken after the last dot of the original
    file name, the content type derived from it, and the guards of delete and public
    URL. The storage bucket, the random UUID and the URL it serves become parameters. */
module PhotoService {
  import opened Wrappers
  import Js
  import Text

  const BucketName := "recipe-photos"

  /** 5 MB. */
  const MaxFileSize: nat := 5 * 1024 * 1024

  // ------------------------------------------------------------- file names

  /** `s.split(sep)`: the text before the first separator, then the split of the rest. */
  function Split(s: string, sep: char): (parts: seq<string>)
    ensures |parts| >= 1
    decreases |s|
  {
    match Text.IndexOf(s, sep)
    case None => [s]
    case Some(i) => [s[..i]] + Split(s[i + 1..], sep)
  }

  /** A string without the separator is its own single part; one with it splits in two or
      more. */
  lemma SplitCount(s: string, sep: char)
    ensures sep !in s ==> Split(s, sep) == [s]
    ensures sep in s ==> |Split(s, sep)| >= 2
  {
    match Text.IndexOf(s, sep)
    case None =>
    case Some(i) =>
      assert s[i] == sep;
  }

  /** No part of a split holds the separator. */
  lemma {:induction false} SplitPartsHaveNoSeparator(s: string, sep: char)
    decreases |s|
    ensures forall i :: 0 <= i < |Split(s, sep)| ==> sep !in Split(s, sep)[i]
  {
    match Text.IndexOf(s, sep)
    case None =>
    case Some(i) =>
      SplitPartsHaveNoSeparator(s[i + 1..], sep);
      var rest := Split(s[i + 1..], sep);
      var parts := Split(s, sep);
      forall j | 0 <= j < |parts| ensures sep !in parts[j] {
        if j == 0 {
          assert parts[0] == s[..i];
        } else {
          assert parts[j] == rest[j - 1];
        }
      }
  }

  /** `parts.join(sep)`. */
  function Join(parts: seq<string>, sep: char): string
    requires |parts| >= 1
  {
    if |parts| == 1 then parts[0] else parts[0] + [sep] + Join(parts[1..], sep)
  }

  /** Joining the parts of a split with the same separator gives the string back. */
  lemma {:induction false} JoinSplit(s: string, sep: char)
    decreases |s|
    ensures Join(Split(s, sep), sep) == s
  {
    match Text.IndexOf(s, sep)
    case None =>
    case Some(i) =>
      JoinSplit(s[i + 1..], sep);
      var rest := Split(s[i + 1..], sep);
      var parts := Split(s, sep);
      assert |parts| == |rest| + 1 && parts[0] == s[..i] && parts[1..] == rest;
      assert Join(parts, sep) == s[..i] + [sep] + Join(rest, sep);
      assert s == s[..i] + [sep] + s[i + 1..];
  }

  /** The last of a non-empty list of parts. */
  function Last(parts: seq<string>): string
    requires |parts| >= 1
  {
    parts[|parts| - 1]
  }

  /** `part` has no separator and ends `s`, where it is the whole of `s` or follows a
      separator. */
  predicate TrailingPart(s: string, part: string, sep: char) {
    && sep !in part && |part| <= |s| && part == s[|s| - |part|..]
    && (part == s || s[|s| - |part| - 1] == sep)
  }

  /** The last part of a split is a trailing part of the string. */
  lemma {:induction false} LastPart(s: string, sep: char)
    decreases |s|
    ensures TrailingPart(s, Last(Split(s, sep)), sep)
  {
    match Text.IndexOf(s, sep)
    case None =>
      assert Split(s, sep) == [s];
    case Some(i) =>
      LastPart(s[i + 1..], sep);
      LastOfRest(s, sep, i);
      SuffixAfterSeparator(s, sep, i, Last(Split(s[i + 1..], sep)));
  }

  /** Cutting at the first separator keeps the last part. */
  lemma LastOfRest(s: string, sep: char, i: nat)
    requires Text.IndexOf(s, sep) == Some(i)
    ensures Last(Split(s, sep)) == Last(Split(s[i + 1..], sep))
  {
    var rest := Split(s[i + 1..], sep);
    var parts := Split(s, sep);
    assert |parts| == |rest| + 1;
    assert parts[|parts| - 1] == rest[|rest| - 1];
  }

  /** A trailing part of the text after a separator is a trailing part of the whole. */
  lemma SuffixAfterSeparator(s: string, sep: char, i: nat, last: string)
    requires i < |s| && s[i] == sep && TrailingPart(s[i + 1..], last, sep)
    ensures TrailingPart(s, last, sep)
  {
    var t := s[i + 1..];
    assert t[|t| - |last|..] == s[|s| - |last|..];
    if last == t {
      assert s[|s| - |last| - 1] == s[i];
    } else {
      assert s[|s| - |last| - 1] == t[|t| - |last| - 1];
    }
  }

  /** `name.split('.').pop()`: the last part of the split, which is the text after the last
      dot, or the whole name when there is no dot. */
  function Extension(name: string): (ext: string)
    ensures '.' !in ext
    ensures |ext| <= |name| && ext == name[|name| - |ext|..]
    ensures ext == name || name[|name| - |ext| - 1] == '.'
  {
    LastPart(name, '.');
    Last(Split(name, '.'))
  }

  /** The storage key: `${userId}/${uuid}.${fileExt}`. */
  function Key(userId: string, uuid: string, ext: string): string {
    userId + "/" + uuid + "." + ext
  }

  /** `image/${fileExt}`. */
  function ContentType(ext: string): string {
    "image/" + ext
  }

  // ------------------------------------------------------------------ upload

  /** What `uploadRecipePhoto` returns: the stored key and its public URL, with the
      content type the upload declared. */
  datatype StoredPhoto = StoredPhoto(path: string, contentType: string, publicUrl: string)

  const EmptyMessage := "File buffer is empty"

  /** `File size exceeds maximum of ${MAX_FILE_SIZE / 1024 / 1024}MB`. */
  function TooLargeMessage(): (message: string)
    ensures message == "File size exceeds maximum of 5MB"
  {
    assert MaxFileSize / 1024 / 1024 == 5;
    assert Js.IntToString(5) == "5";
    "File size exceeds maximum of " + Js.IntToString(MaxFileSize / 1024 / 1024) + "MB"
  }

  /** `uploadRecipePhoto(fileBuffer, originalFileName, userId)`. `buffer` is `None` when it
      is missing; `uuid` is what `uuidv4()` returns; `storageError` is the storage
      service's error, if any; `publicUrlOf` is the bucket's `getPublicUrl`. */
  function UploadRecipePhoto(buffer: Option<seq<bv8>>, originalFileName: string, userId: string, uuid: string,
                             storageError: Option<string>, publicUrlOf: string -> string): (r: Result<StoredPhoto>)
    ensures buffer.None? || |buffer.value| == 0 ==> r == Err(EmptyMessage)
    ensures buffer.Some? && |buffer.value| > MaxFileSize ==> r == Err(TooLargeMessage())
    ensures buffer.Some? && 0 < |buffer.value| <= MaxFileSize && storageError.Some? ==> r == Err(storageError.value)
    ensures r.Ok? <==> buffer.Some? && 0 < |buffer.value| <= MaxFileSize && storageError.None?
    ensures r.Ok? ==>
      var ext := Extension(originalFileName);
      && r.value.path == Key(userId, uuid, ext)
      && r.value.contentType == ContentType(ext)
      && r.value.publicUrl == publicUrlOf(r.value.path)
  {
    if buffer.None? || |buffer.value| == 0 then Err(EmptyMessage)
    else if |buffer.value| > MaxFileSize then Err(TooLargeMessage())
    else
      var ext := Extension(originalFileName);
      var key := Key(userId, uuid, ext);
      match storageError
      case Some(e) => Err(e)
      case None => Ok(StoredPhoto(key, ContentType(ext), publicUrlOf(key)))
  }

  /** The size limit is inclusive: a buffer of exactly 5 MB passes, one byte more does
      not, and the message names the limit as "5MB". */
  lemma SizeLimitBoundary(atLimit: seq<bv8>, overLimit: seq<bv8>, name: string, userId: string, uuid: string,
                          publicUrlOf: string -> string)
    requires |atLimit| == MaxFileSize && |overLimit| == MaxFileSize + 1
    ensures UploadRecipePhoto(Some(atLimit), name, userId, uuid, None, publicUrlOf).Ok?
    ensures UploadRecipePhoto(Some(overLimit), name, userId, uuid, None, publicUrlOf)
         == Err("File size exceeds maximum of 5MB")
  {
  }

  /** Every key lies in the uploading user's folder, and the extension read back from
      the key is the extension of the original name: the declared content type and the
      key agree. */
  lemma KeyInUserFolder(userId: string, uuid: string, originalFileName: string)
    ensures var key := Key(userId, uuid, Extension(originalFileName));
      && key[..|userId| + 1] == userId + "/"
      && Extension(key) == Extension(originalFileName)
  {
    var ext := Extension(originalFileName);
    var key := Key(userId, uuid, ext);
    var prefix := userId + "/" + uuid;
    assert key == prefix + "." + ext;
    assert key[..|userId| + 1] == prefix[..|userId| + 1];
    assert prefix[..|userId| + 1] == userId + "/";
    ExtensionAfterDot(prefix, ext);
  }

  /** A name ending in a dot and a dot-free `ext` has extension `ext`. */
  lemma ExtensionAfterDot(prefix: string, ext: string)
    requires '.' !in ext
    ensures Extension(prefix + "." + ext) == ext
  {
    var s := prefix + "." + ext;
    var e := Extension(s);
    var n := |prefix|;
    assert s[n] == '.';
    forall j | |s| - |e| <= j < |s| ensures s[j] != '.' {
      assert s[j] == e[j - (|s| - |e|)];
    }
    assert n < |s| - |e|;
    forall j | n < j < |s| ensures s[j] != '.' {
      assert s[j] == ext[j - n - 1];
    }
    assert s[|s| - |e| - 1] == '.';
    assert e == s[n + 1..] == ext;
  }

  /** Two uploads of the same name by the same user get different keys whenever the UUIDs
      differ; uploads by different users get different keys whenever neither user id holds
      a slash. */
  lemma KeysAreDistinct(userId: string, otherUser: string, uuid: string, otherUuid: string, ext: string)
    ensures uuid != otherUuid ==> Key(userId, uuid, ext) != Key(userId, otherUuid, ext)
    ensures userId != otherUser && '/' !in userId && '/' !in otherUser ==>
      Key(userId, uuid, ext) != Key(otherUser, otherUuid, ext)
  {
    var a, b := Key(userId, uuid, ext), Key(userId, otherUuid, ext);
    var n := |userId| + 1;
    assert a[n..|a| - |ext| - 1] == uuid;
    assert b[n..|b| - |ext| - 1] == otherUuid;
    if userId != otherUser && '/' !in userId && '/' !in otherUser {
      FolderOfKey(userId, uuid, ext);
      FolderOfKey(otherUser, otherUuid, ext);
    }
  }

  /** The folder of a key: the text before its first slash. */
  function Folder(key: string): string {
    if key == [] || key[0] == '/' then [] else [key[0]] + Folder(key[1..])
  }

  lemma {:induction false} FolderOfKey(userId: string, uuid: string, ext: string)
    requires '/' !in userId
    ensures Folder(Key(userId, uuid, ext)) == userId
  {
    var key := Key(userId, uuid, ext);
    if userId != [] {
      assert key[1..] == Key(userId[1..], uuid, ext);
      FolderOfKey(userId[1..], uuid, ext);
    } else {
      assert key[0] == '/';
    }
  }

  /** The extension is taken as it is written: a `.JPG` upload is declared `image/JPG`,
      and a `.jpg` upload `image/jpg` rather than `image/jpeg`. */
  lemma ExtensionOfJpg()
    ensures Extension("photo.jpg") == "jpg"
    ensures ContentType("jpg") == "image/jpg"
  {
    var name := "photo" + "." + "jpg";
    ExtensionAfterDot("photo", "jpg");
    assert name == "photo.jpg";
    var t := "image/" + "jpg";
    assert t == "image/jpg";
  }

  lemma ExtensionOfUpperCaseJpg()
    ensures Extension("photo.JPG") == "JPG"
    ensures ContentType("JPG") == "image/JPG"
  {
    var name := "photo" + "." + "JPG";
    ExtensionAfterDot("photo", "JPG");
    assert name == "photo.JPG";
    var t := "image/" + "JPG";
    assert t == "image/JPG";
  }

  /** Only the last extension of a name counts. */
  lemma ExtensionOfArchive()
    ensures Extension("archive.tar.gz") == "gz"
  {
    var name := "archive.tar" + "." + "gz";
    ExtensionAfterDot("archive.tar", "gz");
    assert name == "archive.tar.gz";
  }

  lemma ExtensionWithoutDot(name: string)
    requires '.' !in name
    ensures Extension(name) == name
    ensures Key("u", "id", Extension(name)) == "u/id." + name
  {
  }

  // ---------------------------------------------------------- delete, public URL

  /** `deleteRecipePhoto(photoPath)`: the keys it asks the bucket to remove. An empty or
      missing path returns at once and removes nothing; otherwise the one key is removed,
      and a storage error is rethrown. */
  function DeleteRecipePhoto(photoPath: Option<string>, storageError: Option<string>): (r: Result<seq<string>>)
    ensures !Js.Truthy(photoPath) ==> r == Ok([])
    ensures Js.Truthy(photoPath) && storageError.Some? ==> r == Err(storageError.value)
    ensures Js.Truthy(photoPath) && storageError.None? ==> r == Ok([photoPath.value])
  {
    if !Js.Truthy(photoPath) then Ok([])
    else match storageError
      case Some(e) => Err(e)
      case None => Ok([photoPath.value])
  }

  /** `getPhotoPublicUrl(photoPath)`: null for an empty or missing path. */
  function GetPhotoPublicUrl(photoPath: Option<string>, publicUrlOf: string -> string): (url: Option<string>)
    ensures url.None? <==> !Js.Truthy(photoPath)
    ensures url.Some? ==> url.value == publicUrlOf(photoPath.value)
  {
    if Js.Truthy(photoPath) then Some(publicUrlOf(photoPath.value)) else None
  }

  /** The URL an upload returns is the one `getPhotoPublicUrl` gives for its key, and the
      key it stored is one `deleteRecipePhoto` removes. */
  lemma UploadedPhotoCanBeServedAndDeleted(buffer: Option<seq<bv8>>, originalFileName: string, userId: string,
                                           uuid: string, publicUrlOf: string -> string)
    requires UploadRecipePhoto(buffer, originalFileName, userId, uuid, None, publicUrlOf).Ok?
    ensures var p := UploadRecipePhoto(buffer, originalFileName, userId, uuid, None, publicUrlOf).value;
      && GetPhotoPublicUrl(Some(p.path), publicUrlOf) == Some(p.publicUrl)
      && DeleteRecipePhoto(Some(p.path), None) == Ok([p.path])
  {
    var p := UploadRecipePhoto(buffer, originalFileName, userId, uuid, None, publicUrlOf).value;
    assert p.path[|userId|] == '/';
  }
}
