/** `ImageHelper.UploadImagesAsync`: the wrapper the blog controller uses
    to store a post's images. An absent or empty list short-circuits to no
    URLs; otherwise the file service's batch runs, and a validation
    failure (`ArgumentException`) is re-thrown as an
    `InvalidOperationException` with a fixed prefix. */
module ImageHelper {
  import opened Base
  import opened FileService

  const UploadFailedPrefix := "Image upload failed: "

  /** The `catch (ArgumentException)` clause: only argument errors are
      rewrapped, every other exception passes through untouched. */
  function TranslateUploadError(e: Exception): (r: Exception)
    ensures e.ArgumentException? <==> r.InvalidOperationException? && r != e
    ensures e.ArgumentException? ==> r.message == UploadFailedPrefix + e.message
    ensures !e.ArgumentException? ==> r == e
  {
    if e.ArgumentException? then InvalidOperationException(UploadFailedPrefix + e.message) else e
  }

  /** `files` is `None` for a null list; `names[i]` is the GUID the file
      service would mint for `files[i]`. */
  function UploadImages(files: Option<seq<Option<FormFile>>>, names: seq<string>, store: FileStore): (u: Upload)
    requires files.Some? ==> |files.value| <= |names|
    ensures files.None? || files.value == [] ==> u == Upload(Success([]), store)
    ensures files.Some? && files.value != [] ==>
      var saved := SaveImages(files.value, names, store);
      && u.store == saved.store
      && u.result.Success? == saved.result.Success?
      && (u.result.Success? ==> u.result.value == saved.result.value)
      && (u.result.Failure? ==> u.result.error == TranslateUploadError(saved.result.error))
  {
    if files.None? || files.value == [] then Upload(Success([]), store)
    else
      var saved := SaveImages(files.value, names, store);
      match saved.result
      case Success(urls) => Upload(Success(urls), saved.store)
      case Failure(e) => Upload(Failure(TranslateUploadError(e)), saved.store)
  }

  /** The file service only ever fails with an `ArgumentException`, so no
      argument error escapes the helper: every failure is an
      `InvalidOperationException` naming the offending file's problem. */
  lemma UploadFailureIsInvalidOperation(files: seq<Option<FormFile>>, names: seq<string>, store: FileStore)
    requires |files| <= |names|
    requires UploadImages(Some(files), names, store).result.Failure?
    ensures var e := UploadImages(Some(files), names, store).result.error;
      var k := PassedPrefix(Validations(files));
      && k < |files|
      && !IsValidImage(files[k])
      && e == InvalidOperationException(UploadFailedPrefix + ValidateImage(files[k]).error.message)
  {
    SaveImagesOutcome(files, names, store);
  }

  /** A successful upload returns one URL per file, in order, and the
      store grows by exactly the files written. */
  lemma UploadSuccessUrls(files: seq<Option<FormFile>>, names: seq<string>, store: FileStore)
    requires |files| <= |names|
    requires UploadImages(Some(files), names, store).result.Success?
    ensures var u := UploadImages(Some(files), names, store);
      && |u.result.value| == |files|
      && (forall i :: 0 <= i < |files| ==> IsValidImage(files[i]))
      && (forall i :: 0 <= i < |files| ==> u.result.value[i] == ImageUrl(names[i], ImageExtension(files[i])))
      && u.store == store + WrittenPaths(Validations(files), names)
  {
    SaveImagesOutcome(files, names, store);
    var checks := Validations(files);
    assert checks[..|files|] == checks;
  }
}
