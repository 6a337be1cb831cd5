/** `FileService`: validating, storing and deleting uploaded blog images.
    The web root is a set of file paths relative to it; the GUID minted for
    each upload is a parameter (`name`). */
module FileService {
  import opened Base
  import opened Text

  /** An uploaded form file: the client's file name and the length in
      bytes. A null file is `None` where the source accepts null. */
  datatype FormFile = FormFile(fileName: string, length: nat)

  /** The files under the web root, by path relative to it. */
  type FileStore = set<string>

  const UploadFolder := "uploads/blog-images"
  const AllowedExtensions: seq<string> := [".jpg", ".jpeg", ".png", ".gif", ".webp"]
  const MaxImageLength: nat := 5 * 1024 * 1024

  const InvalidFileMessage := "Invalid file"
  const InvalidTypeMessage := "Invalid file type. Only images are allowed."
  const TooLargeMessage := "File size exceeds 5MB limit"

  // ---------------------------------------------------------------------
  // Path.GetExtension (Unix flavour: '/' is the only directory separator).

  /** Scans `path[..i + 1]` right to left for the extension's dot. */
  function ExtensionScan(path: string, i: int): (ext: string)
    requires -1 <= i < |path|
    ensures ext == [] || (2 <= |ext| <= |path| && ext == path[|path| - |ext|..] && ext[0] == '.')
    decreases i + 1
  {
    if i < 0 then ""
    else if path[i] == '.' then (if i != |path| - 1 then path[i..] else "")
    else if path[i] == '/' then ""
    else ExtensionScan(path, i - 1)
  }

  /** `Path.GetExtension`: from the last dot of the last path segment, or
      empty when that segment has no dot or ends in one. */
  function GetExtension(path: string): (ext: string)
    ensures ext == [] || (2 <= |ext| <= |path| && ext == path[|path| - |ext|..] && ext[0] == '.')
  {
    ExtensionScan(path, |path| - 1)
  }

  /** Neither a dot nor a directory separator. */
  predicate IsPlainChar(c: char) {
    c != '.' && c != '/'
  }

  /** `ext` is what follows the last dot of the last segment of `path`. */
  predicate IsExtensionOf(path: string, ext: string) {
    && 2 <= |ext| <= |path|
    && ext == path[|path| - |ext|..]
    && ext[0] == '.'
    && forall j :: |path| - |ext| < j < |path| ==> IsPlainChar(path[j])
  }

  lemma {:induction false} ExtensionScanFinds(path: string, i: int, k: int)
    requires -1 <= i < |path|
    requires 0 <= k <= i && k < |path| - 1 && path[k] == '.'
    requires forall j :: k < j <= i ==> IsPlainChar(path[j])
    ensures ExtensionScan(path, i) == path[k..]
    decreases i + 1
  {
    if i != k {
      ExtensionScanFinds(path, i - 1, k);
    }
  }

  lemma {:induction false} ExtensionScanSound(path: string, i: int)
    requires -1 <= i < |path|
    requires forall j :: i < j < |path| ==> IsPlainChar(path[j])
    ensures var ext := ExtensionScan(path, i);
      ext == [] || IsExtensionOf(path, ext)
    decreases i + 1
  {
    if 0 <= i && path[i] != '.' && path[i] != '/' {
      ExtensionScanSound(path, i - 1);
    }
  }

  /** GetExtension returns exactly the text after the last dot of the last
      segment, when there is such text, and nothing otherwise. */
  lemma GetExtensionSpec(path: string, ext: string)
    ensures GetExtension(path) == ext && ext != [] <==> IsExtensionOf(path, ext)
  {
    if IsExtensionOf(path, ext) {
      var k := |path| - |ext|;
      assert path[k] == ext[0];
      ExtensionScanFinds(path, |path| - 1, k);
    }
    ExtensionScanSound(path, |path| - 1);
  }

  /** The extension of `name + ext` is `ext` whenever `ext` is a dot and at
      least one plain character. */
  lemma ExtensionOfName(name: string, ext: string)
    requires 2 <= |ext| && ext[0] == '.'
    requires forall j :: 1 <= j < |ext| ==> IsPlainChar(ext[j])
    ensures GetExtension(name + ext) == ext
  {
    var path := name + ext;
    assert path[|path| - |ext|..] == ext;
    GetExtensionSpec(path, ext);
  }

  // ---------------------------------------------------------------------
  // SaveImageAsync

  /** `list.Contains(x)`, scanning from the front. */
  predicate Contains(list: seq<string>, x: string)
    decreases |list|
  {
    list != [] && (list[0] == x || Contains(list[1..], x))
  }

  lemma {:induction false} ContainsIsMembership(list: seq<string>, x: string)
    ensures Contains(list, x) <==> x in list
    decreases |list|
  {
    if list != [] {
      ContainsIsMembership(list[1..], x);
      assert list == [list[0]] + list[1..];
    }
  }

  predicate IsAllowedExtension(ext: string) {
    Contains(AllowedExtensions, ext)
  }

  /** The lower-cased extension of an uploaded file's name. */
  function ImageExtension(file: Option<FormFile>): string {
    if file.None? then "" else ToLowerInvariant(GetExtension(file.value.fileName))
  }

  /** A file SaveImageAsync accepts: present, non-empty, an allowed
      extension, at most 5 MiB. */
  predicate IsValidImage(file: Option<FormFile>) {
    && file.Some? && file.value.length != 0
    && IsAllowedExtension(ImageExtension(file))
    && file.value.length <= MaxImageLength
  }

  /** The checks made before anything is written, in the source's order:
      empty, then type, then size. The result is the lower-cased
      extension. */
  function ValidateImage(file: Option<FormFile>): (r: Result<string>)
    ensures r.Success? <==> IsValidImage(file)
    ensures r.Success? ==> r.value == ImageExtension(file)
    ensures r.Failure? ==> r.error.ArgumentException?
  {
    if file.None? || file.value.length == 0 then
      Failure(ArgumentException(InvalidFileMessage))
    else if !IsAllowedExtension(ImageExtension(file)) then
      Failure(ArgumentException(InvalidTypeMessage))
    else if file.value.length > MaxImageLength then
      Failure(ArgumentException(TooLargeMessage))
    else
      Success(ImageExtension(file))
  }

  /** Where an upload named `name` with extension `ext` is stored. */
  function ImagePath(name: string, ext: string): string {
    UploadFolder + "/" + name + ext
  }

  /** The URL handed back to the caller for that file. */
  function ImageUrl(name: string, ext: string): string {
    "/" + ImagePath(name, ext)
  }

  /** A successful save: the URL returned and the store afterwards. */
  datatype Saved = Saved(url: string, store: FileStore)

  /** `SaveImageAsync`: validate, then write the file under the fresh name
      `name` (a GUID) and return its URL. */
  function SaveImage(file: Option<FormFile>, name: string, store: FileStore): (r: Result<Saved>)
    ensures r.Failure? <==> !IsValidImage(file)
    ensures r.Failure? ==> r.error == ValidateImage(file).error
    ensures r.Success? ==>
      && r.value.url == ImageUrl(name, ImageExtension(file))
      && r.value.store == store + {ImagePath(name, ImageExtension(file))}
  {
    match ValidateImage(file)
    case Failure(e) => Failure(e)
    case Success(ext) => Success(Saved(ImageUrl(name, ext), store + {ImagePath(name, ext)}))
  }

  /** A rejected file leaves the store as it was, and the reason follows the
      source's order of checks. */
  lemma SaveImageRejections(file: Option<FormFile>, name: string, store: FileStore)
    ensures file.None? ==> SaveImage(file, name, store) == Failure(ArgumentException(InvalidFileMessage))
    ensures file.Some? && file.value.length == 0 ==>
              SaveImage(file, name, store) == Failure(ArgumentException(InvalidFileMessage))
    ensures file.Some? && file.value.length != 0
            && !IsAllowedExtension(ToLowerInvariant(GetExtension(file.value.fileName))) ==>
              SaveImage(file, name, store) == Failure(ArgumentException(InvalidTypeMessage))
    ensures file.Some? && file.value.length > MaxImageLength
            && IsAllowedExtension(ToLowerInvariant(GetExtension(file.value.fileName))) ==>
              SaveImage(file, name, store) == Failure(ArgumentException(TooLargeMessage))
  {
  }

  /** The size cap is inclusive: exactly 5 MiB is accepted. */
  lemma FiveMebibytesAccepted(fileName: string, name: string, store: FileStore)
    requires IsAllowedExtension(ToLowerInvariant(GetExtension(fileName)))
    ensures SaveImage(Some(FormFile(fileName, 5 * 1024 * 1024)), name, store).Success?
    ensures SaveImage(Some(FormFile(fileName, 5 * 1024 * 1024 + 1)), name, store)
         == Failure(ArgumentException(TooLargeMessage))
  {
  }

  /** Extensions are compared without regard to ASCII case. */
  lemma UpperCaseExtensionAccepted(stem: string, name: string, store: FileStore)
    requires forall j :: 0 <= j < |stem| ==> IsPlainChar(stem[j])
    ensures var file := Some(FormFile(stem + ".PNG", 1));
      SaveImage(file, name, store) == Success(Saved(ImageUrl(name, ".png"), store + {ImagePath(name, ".png")}))
  {
    var ext := ".PNG";
    assert forall j :: 1 <= j < |ext| ==> IsPlainChar(ext[j]);
    ExtensionOfName(stem, ext);
    assert ToLowerInvariant(ext) == ".png";
  }

  // ---------------------------------------------------------------------
  // DeleteImageAsync

  /** The path a URL names: the URL without its leading slashes. */
  function UrlToPath(url: string): (path: string)
    ensures |path| <= |url|
    ensures path == [] || path[0] != '/'
  {
    TrimStart(url, '/')
  }

  /** Every URL handed out by SaveImage maps back to the stored file. */
  lemma UrlToPathOfImageUrl(name: string, ext: string)
    ensures UrlToPath(ImageUrl(name, ext)) == ImagePath(name, ext)
  {
    var path := ImagePath(name, ext);
    assert ("/" + path)[1..] == path;
    assert path[0] == 'u';
  }

  /** `DeleteImageAsync`: nothing for an empty URL, otherwise remove the
      file if it exists. */
  function DeleteImage(url: string, store: FileStore): (r: FileStore)
    ensures url == [] ==> r == store
    ensures url != [] ==> r == store - {UrlToPath(url)}
  {
    if url == [] then store else store - {UrlToPath(url)}
  }

  /** Deleting a URL returned by SaveImage removes exactly the saved file. */
  lemma SaveThenDelete(file: Option<FormFile>, name: string, store: FileStore)
    requires SaveImage(file, name, store).Success?
    ensures var saved := SaveImage(file, name, store).value;
      var path := ImagePath(name, ImageExtension(file));
      && DeleteImage(saved.url, saved.store) == saved.store - {path}
      && (path !in store ==> DeleteImage(saved.url, saved.store) == store)
  {
    UrlToPathOfImageUrl(name, ImageExtension(file));
  }

  /** Deleting a file that is not there changes nothing; hence deleting
      twice is the same as deleting once. */
  lemma DeleteImageIdempotent(url: string, store: FileStore)
    ensures url != [] && UrlToPath(url) !in store ==> DeleteImage(url, store) == store
    ensures DeleteImage(url, DeleteImage(url, store)) == DeleteImage(url, store)
  {
  }

  // ---------------------------------------------------------------------
  // SaveImagesAsync and DeleteImagesAsync

  /** The outcome of ValidateImage for each file of a batch. */
  function Validations(files: seq<Option<FormFile>>): (checks: seq<Result<string>>)
    ensures |checks| == |files|
    ensures forall i :: 0 <= i < |files| ==> checks[i] == ValidateImage(files[i])
  {
    seq(|files|, i requires 0 <= i < |files| => ValidateImage(files[i]))
  }

  /** The number of leading checks that passed. */
  function PassedPrefix(checks: seq<Result<string>>): (k: nat)
    ensures k <= |checks|
    ensures forall i :: 0 <= i < k ==> checks[i].Success?
    ensures k < |checks| ==> checks[k].Failure?
  {
    if checks == [] || checks[0].Failure? then 0
    else
      var k := PassedPrefix(checks[1..]);
      assert forall i :: 1 <= i < |checks| ==> checks[i] == checks[1..][i - 1];
      1 + k
  }

  /** The paths written for the passed checks among `checks`, `names[i]`
      naming the i-th file. */
  function WrittenPaths(checks: seq<Result<string>>, names: seq<string>): (paths: set<string>)
    requires |checks| <= |names|
    ensures paths == set i | 0 <= i < |checks| && checks[i].Success? :: ImagePath(names[i], checks[i].value)
    decreases |checks|
  {
    if checks == [] then {}
    else
      var rest := WrittenPaths(checks[1..], names[1..]);
      WrittenPathsCons(checks, names, rest);
      (if checks[0].Success? then {ImagePath(names[0], checks[0].value)} else {}) + rest
  }

  lemma WrittenPathsCons(checks: seq<Result<string>>, names: seq<string>, rest: set<string>)
    requires 1 <= |checks| <= |names|
    requires rest == set i | 0 <= i < |checks| - 1 && checks[1..][i].Success? :: ImagePath(names[1..][i], checks[1..][i].value)
    ensures (if checks[0].Success? then {ImagePath(names[0], checks[0].value)} else {}) + rest
         == set i | 0 <= i < |checks| && checks[i].Success? :: ImagePath(names[i], checks[i].value)
  {
    var all := set i | 0 <= i < |checks| && checks[i].Success? :: ImagePath(names[i], checks[i].value);
    var head: set<string> := if checks[0].Success? then {ImagePath(names[0], checks[0].value)} else {};
    forall p | p in all ensures p in head + rest {
      var i :| 0 <= i < |checks| && checks[i].Success? && p == ImagePath(names[i], checks[i].value);
      if i > 0 {
        assert checks[1..][i - 1] == checks[i] && names[1..][i - 1] == names[i];
      }
    }
    forall p | p in rest ensures p in all {
      var i :| 0 <= i < |checks| - 1 && checks[1..][i].Success? && p == ImagePath(names[1..][i], checks[1..][i].value);
      assert checks[1..][i] == checks[i + 1] && names[1..][i] == names[i + 1];
    }
  }

  /** A batch upload: the URLs or the first error, and the store afterwards
      (which keeps the files written before the error). */
  datatype Upload = Upload(result: Result<seq<string>>, store: FileStore)

  /** The loop of SaveImagesAsync over the already computed checks. */
  function SaveChecked(checks: seq<Result<string>>, names: seq<string>, store: FileStore): (u: Upload)
    requires |checks| <= |names|
    ensures u.result.Success? ==> |u.result.value| == |checks|
    decreases |checks|
  {
    if checks == [] then Upload(Success([]), store)
    else match checks[0]
      case Failure(e) => Upload(Failure(e), store)
      case Success(ext) =>
        var rest := SaveChecked(checks[1..], names[1..], store + {ImagePath(names[0], ext)});
        match rest.result
        case Success(urls) => Upload(Success([ImageUrl(names[0], ext)] + urls), rest.store)
        case Failure(e) => Upload(Failure(e), rest.store)
  }

  /** The files before the first failed check are written, and no others. */
  lemma {:induction false} SaveCheckedStore(checks: seq<Result<string>>, names: seq<string>, store: FileStore)
    requires |checks| <= |names|
    ensures SaveChecked(checks, names, store).store == store + WrittenPaths(checks[..PassedPrefix(checks)], names)
    decreases |checks|
  {
    if checks != [] {
      var k := PassedPrefix(checks);
      if checks[0].Failure? {
        assert checks[..k] == [];
      } else {
        var p := ImagePath(names[0], checks[0].value);
        SaveCheckedStore(checks[1..], names[1..], store + {p});
        assert checks[..k][1..] == checks[1..][..k - 1];
        assert WrittenPaths(checks[..k], names) == {p} + WrittenPaths(checks[1..][..k - 1], names[1..]);
      }
    }
  }

  /** The batch succeeds exactly when every check passed; otherwise it
      reports the first failure. */
  lemma {:induction false} SaveCheckedResult(checks: seq<Result<string>>, names: seq<string>, store: FileStore)
    requires |checks| <= |names|
    ensures var u := SaveChecked(checks, names, store);
      && (u.result.Success? <==> PassedPrefix(checks) == |checks|)
      && (u.result.Failure? ==> u.result.error == checks[PassedPrefix(checks)].error)
    decreases |checks|
  {
    if checks != [] && checks[0].Success? {
      SaveCheckedResult(checks[1..], names[1..], store + {ImagePath(names[0], checks[0].value)});
    }
  }

  /** When every check passed, the i-th URL names the i-th file. */
  lemma {:induction false} SaveCheckedUrls(checks: seq<Result<string>>, names: seq<string>, store: FileStore)
    requires |checks| <= |names|
    requires forall i :: 0 <= i < |checks| ==> checks[i].Success?
    ensures var u := SaveChecked(checks, names, store);
      && u.result.Success?
      && forall i :: 0 <= i < |checks| ==> u.result.value[i] == ImageUrl(names[i], checks[i].value)
    decreases |checks|
  {
    if checks != [] {
      var rest := store + {ImagePath(names[0], checks[0].value)};
      assert forall i :: 1 <= i < |checks| ==> checks[1..][i - 1] == checks[i];
      SaveCheckedUrls(checks[1..], names[1..], rest);
      var urls := SaveChecked(checks, names, store).result.value;
      var tail := SaveChecked(checks[1..], names[1..], rest).result.value;
      assert urls == [ImageUrl(names[0], checks[0].value)] + tail;
      forall i | 1 <= i < |checks| ensures urls[i] == ImageUrl(names[i], checks[i].value) {
        assert urls[i] == tail[i - 1];
        assert checks[1..][i - 1] == checks[i] && names[1..][i - 1] == names[i];
      }
    }
  }

  /** `SaveImagesAsync`: save the files in order, `names[i]` being the GUID
      minted for `files[i]`; the first failure stops the loop and
      propagates, leaving the files before it written. */
  function SaveImages(files: seq<Option<FormFile>>, names: seq<string>, store: FileStore): (u: Upload)
    requires |files| <= |names|
    ensures u.result.Success? ==> |u.result.value| == |files|
  {
    SaveChecked(Validations(files), names, store)
  }

  lemma ValidPrefixOfFiles(files: seq<Option<FormFile>>)
    ensures var k := PassedPrefix(Validations(files));
      && (forall i :: 0 <= i < k ==> IsValidImage(files[i]))
      && (k < |files| ==> !IsValidImage(files[k]))
  {
    var checks := Validations(files);
    var k := PassedPrefix(checks);
    forall i | 0 <= i < k ensures IsValidImage(files[i]) {
      assert checks[i] == ValidateImage(files[i]);
    }
    if k < |files| {
      assert checks[k] == ValidateImage(files[k]);
    }
  }

  /** What a batch does, file by file, with `checks[i]` the validation of
      `files[i]` and `k` the number of leading valid files: files `0..k-1`
      are written and nothing else; the batch succeeds iff all files are
      valid, returning one URL per file in order, and otherwise fails with
      file `k`'s error. */
  lemma SaveImagesOutcome(files: seq<Option<FormFile>>, names: seq<string>, store: FileStore)
    requires |files| <= |names|
    ensures var u := SaveImages(files, names, store);
      var checks := Validations(files);
      var k := PassedPrefix(checks);
      && (forall i :: 0 <= i < k ==> IsValidImage(files[i]))
      && (k < |files| ==> !IsValidImage(files[k]))
      && u.store == store + WrittenPaths(checks[..k], names)
      && (u.result.Success? <==> k == |files|)
      && (u.result.Failure? ==> u.result.error == ValidateImage(files[k]).error)
      && (u.result.Success? ==>
            forall i :: 0 <= i < |files| ==> u.result.value[i] == ImageUrl(names[i], checks[i].value))
  {
    var checks := Validations(files);
    var k := PassedPrefix(checks);
    ValidPrefixOfFiles(files);
    SaveCheckedStore(checks, names, store);
    SaveCheckedResult(checks, names, store);
    if k == |files| {
      SaveCheckedUrls(checks, names, store);
    }
  }

  /** The paths a list of URLs names, skipping empty URLs. */
  function UrlPaths(urls: seq<string>): (paths: set<string>)
    ensures paths == set i | 0 <= i < |urls| && urls[i] != [] :: UrlToPath(urls[i])
    decreases |urls|
  {
    if urls == [] then {}
    else
      var rest := UrlPaths(urls[1..]);
      UrlPathsCons(urls, rest);
      (if urls[0] == [] then {} else {UrlToPath(urls[0])}) + rest
  }

  lemma UrlPathsCons(urls: seq<string>, rest: set<string>)
    requires urls != []
    requires rest == set i | 0 <= i < |urls| - 1 && urls[1..][i] != [] :: UrlToPath(urls[1..][i])
    ensures (if urls[0] == [] then {} else {UrlToPath(urls[0])}) + rest
         == set i | 0 <= i < |urls| && urls[i] != [] :: UrlToPath(urls[i])
  {
    var all := set i | 0 <= i < |urls| && urls[i] != [] :: UrlToPath(urls[i]);
    var head: set<string> := if urls[0] == [] then {} else {UrlToPath(urls[0])};
    forall p | p in all ensures p in head + rest {
      var i :| 0 <= i < |urls| && urls[i] != [] && p == UrlToPath(urls[i]);
      if i > 0 {
        assert urls[1..][i - 1] == urls[i];
      }
    }
    forall p | p in rest ensures p in all {
      var i :| 0 <= i < |urls| - 1 && urls[1..][i] != [] && p == UrlToPath(urls[1..][i]);
      assert urls[1..][i] == urls[i + 1];
    }
  }

  /** `DeleteImagesAsync`: delete each URL in turn. */
  function DeleteImages(urls: seq<string>, store: FileStore): (r: FileStore)
    ensures r == store - UrlPaths(urls)
    decreases |urls|
  {
    if urls == [] then store
    else DeleteImages(urls[1..], DeleteImage(urls[0], store))
  }

  lemma UrlPathsOfWritten(checks: seq<Result<string>>, names: seq<string>, urls: seq<string>)
    requires |checks| <= |names| && |urls| == |checks|
    requires forall i :: 0 <= i < |checks| ==> checks[i].Success?
    requires forall i :: 0 <= i < |checks| ==> urls[i] == ImageUrl(names[i], checks[i].value)
    ensures UrlPaths(urls) == WrittenPaths(checks, names)
  {
    var written := WrittenPaths(checks, names);
    forall p | p in UrlPaths(urls) ensures p in written {
      var i :| 0 <= i < |urls| && urls[i] != [] && p == UrlToPath(urls[i]);
      UrlToPathOfImageUrl(names[i], checks[i].value);
    }
    forall p | p in written ensures p in UrlPaths(urls) {
      var i :| 0 <= i < |checks| && checks[i].Success? && p == ImagePath(names[i], checks[i].value);
      UrlToPathOfImageUrl(names[i], checks[i].value);
      assert urls[i] != [];
    }
  }

  /** Saving a batch and then deleting the URLs it returned removes
      exactly the files the batch wrote. */
  lemma SaveImagesThenDelete(files: seq<Option<FormFile>>, names: seq<string>, store: FileStore)
    requires |files| <= |names|
    requires SaveImages(files, names, store).result.Success?
    ensures var u := SaveImages(files, names, store);
      DeleteImages(u.result.value, u.store) == u.store - WrittenPaths(Validations(files), names)
  {
    var checks := Validations(files);
    SaveImagesOutcome(files, names, store);
    UrlPathsOfWritten(checks, names, SaveImages(files, names, store).result.value);
  }
}
