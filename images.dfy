/**
 * Validation of an uploaded profile or post image. Writing the file to disk
 * is outside the model; the random file name is a parameter.
 */
module Images {
  import opened Common

  const MAX_FILE_SIZE: nat := 5 * 1024 * 1024
  const ALLOWED_EXTENSIONS: seq<string> := ["jpg", "jpeg", "png", "gif"]
  const URL_PREFIX: string := "http://localhost:8080/uploads/images/"

  /** Why an upload is refused, one per `IllegalArgumentException` the service throws. */
  datatype Rejection = EmptyFile | TooLarge | NoFileName | TypeNotAllowed

  datatype Upload = Stored(url: string) | Rejected(reason: Rejection)

  predicate NoDot(s: string) {
    forall i | 0 <= i < |s| :: s[i] != '.'
  }

  /** `lastIndexOf('.')`: the position of the last dot, or -1 when there is none. */
  function LastDot(s: string): (r: int)
    ensures -1 <= r < |s|
    ensures r == -1 <==> NoDot(s)
    ensures r >= 0 ==> s[r] == '.' && NoDot(s[r + 1..])
  {
    if s == [] then -1
    else if s[|s| - 1] == '.' then |s| - 1
    else
      assert s[..|s| - 1] + [s[|s| - 1]] == s;
      LastDot(s[..|s| - 1])
  }

  /** `getFileExtension`: the text after the last dot, or "" for a name without one. */
  function FileExtension(name: string): (ext: string)
    ensures NoDot(ext)
    ensures NoDot(name) ==> ext == ""
    ensures !NoDot(name) ==> |ext| < |name| && name == name[..|name| - |ext| - 1] + "." + ext
  {
    var i := LastDot(name);
    if i == -1 then "" else name[i + 1..]
  }

  /** A name built as base + "." + extension gives that extension back. */
  lemma ExtensionOfJoined(base: string, ext: string)
    requires NoDot(ext)
    ensures FileExtension(base + "." + ext) == ext
  {
    var name := base + "." + ext;
    assert name[|base|] == '.';
    assert name[|base| + 1..] == ext;
    assert NoDot(name[|base| + 1..]);
  }

  predicate Allowed(ext: string) {
    ext in ALLOWED_EXTENSIONS
  }

  /**
   * `uploadImage` without the file write: an empty file, then a file over
   * 5 MiB, then a missing name, then an extension outside jpg/jpeg/png/gif
   * (compared in lower case) is refused, in that order; otherwise the URL is
   * the fixed prefix, the generated name, a dot and the lower-cased extension.
   */
  function Validate(size: nat, originalFilename: Option<string>, generatedName: string): (r: Upload)
    ensures size == 0 <==> r == Rejected(EmptyFile)
    ensures size > MAX_FILE_SIZE <==> r == Rejected(TooLarge)
    ensures 0 < size <= MAX_FILE_SIZE && originalFilename.None? <==> r == Rejected(NoFileName)
    ensures r.Stored? <==> 0 < size <= MAX_FILE_SIZE && originalFilename.Some?
                           && Allowed(ToLower(FileExtension(originalFilename.value)))
    ensures r.Stored? ==> r.url == URL_PREFIX + generatedName + "." + ToLower(FileExtension(originalFilename.value))
  {
    if size == 0 then Rejected(EmptyFile)
    else if size > MAX_FILE_SIZE then Rejected(TooLarge)
    else if originalFilename.None? then Rejected(NoFileName)
    else
      var ext := ToLower(FileExtension(originalFilename.value));
      if !Allowed(ext) then Rejected(TypeNotAllowed) else Stored(URL_PREFIX + generatedName + "." + ext)
  }

  /** The stored URL ends in an allowed, lower-case extension. */
  lemma StoredUrlHasAllowedExtension(size: nat, originalFilename: Option<string>, generatedName: string)
    requires Validate(size, originalFilename, generatedName).Stored?
    ensures Allowed(FileExtension(Validate(size, originalFilename, generatedName).url))
  {
    var ext := ToLower(FileExtension(originalFilename.value));
    assert NoDot(ext) by {
      forall i | 0 <= i < |ext| ensures ext[i] != '.' {
        assert ext[i] == LowerAscii(FileExtension(originalFilename.value)[i]);
      }
    }
    ExtensionOfJoined(URL_PREFIX + generatedName, ext);
  }

  /**
   * Exactly 5 MiB is accepted and one byte more is not, and the extension's
   * case does not matter: an upper-case allowed extension is stored exactly
   * as its lower-case form would be.
   */
  lemma LimitIsInclusive(base: string, ext: string, generatedName: string)
    requires NoDot(ext) && Allowed(ToLower(ext))
    ensures Validate(MAX_FILE_SIZE, Some(base + "." + ext), generatedName)
         == Stored(URL_PREFIX + generatedName + "." + ToLower(ext))
    ensures Validate(MAX_FILE_SIZE, Some(base + "." + ToLower(ext)), generatedName)
         == Validate(MAX_FILE_SIZE, Some(base + "." + ext), generatedName)
    ensures Validate(MAX_FILE_SIZE + 1, Some(base + "." + ext), generatedName) == Rejected(TooLarge)
  {
    var lower := ToLower(ext);
    assert NoDot(lower) by {
      forall i | 0 <= i < |lower| ensures lower[i] != '.' {
        assert lower[i] == LowerAscii(ext[i]);
      }
    }
    assert ToLower(lower) == lower;
    ExtensionOfJoined(base, ext);
    ExtensionOfJoined(base, lower);
  }

  /**
   * Only the text after the last dot counts, whatever comes before it (an
   * allowed extension earlier in the name, as in "archive.png.gz", does not
   * help), and a name without a dot has no extension and is refused.
   */
  lemma LastDotDecides(base: string, ext: string, plain: string, generatedName: string)
    requires NoDot(ext) && NoDot(plain)
    ensures Validate(1, Some(base + "." + ext), generatedName).Stored? <==> Allowed(ToLower(ext))
    ensures Validate(1, Some(plain), generatedName) == Rejected(TypeNotAllowed)
  {
    ExtensionOfJoined(base, ext);
    assert ToLower("") == "";
    assert !Allowed("") by {
      forall k | 0 <= k < |ALLOWED_EXTENSIONS| ensures ALLOWED_EXTENSIONS[k] != "" {
        assert |ALLOWED_EXTENSIONS[k]| >= 3;
      }
    }
  }
}
