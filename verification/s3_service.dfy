/** The image-asset operations of the S3 service: upload an image as four
    variants, list the `25%_resize` variants with signed URLs, delete all
    variants of a name, and derive the original-size key for signing.

    The store is a `Store` value passed in and returned; the foreign calls
    (base64 decoding with `jimp.read`, URL signing) are function parameters,
    and the store's refusals are given as the set of keys it refuses to write. */
module S3Service {
  import opened Wrappers
  import opened JsStrings
  import opened DataUri
  import opened Variants
  import opened Bucket

  /** The prefix `listFiles` scans, the path of the `25%_resize` row. */
  const ListingPrefix: string := "25%_resize"

  /** One `s3.upload` call: its `Key` and what lands under it. */
  datatype PutRequest = PutRequest(key: string, body: StoredObject)

  /** What one successful upload reports back. */
  datatype UploadAck = UploadAck(key: string)

  /** Why `uploadFile` rejects: `jimp.read` could not decode the payload, or the
      store refused one of the writes. */
  datatype UploadError = DecodeError | PutError(key: string)

  datatype UploadStep = UploadStep(store: Store, result: Result<seq<UploadAck>, UploadError>)

  /** The upload parameters for one variant: key `${path}/${fileName}`, the
      resized image as body, and the source's MIME type as `ContentType`. */
  function ToPut(v: Variant, fileName: string): PutRequest
  {
    PutRequest(KeyOf(v.path, fileName), StoredObject(v.width, v.height, v.mime))
  }

  function PutRequests(vs: seq<Variant>, fileName: string): seq<PutRequest>
  {
    seq(|vs|, i requires 0 <= i < |vs| => ToPut(vs[i], fileName))
  }

  /** The loop of `uploadFile`: one request per table row, in table order, each
      resizing the image the previous pass left behind. */
  method PlanUpload(img: Image, fileName: string) returns (reqs: seq<PutRequest>)
    ensures reqs == PutRequests(Derive(img, Sizes), fileName)
    ensures |reqs| == |Sizes|
    ensures forall i :: 0 <= i < |reqs| ==>
              reqs[i].key == VariantKeys(fileName)[i] && reqs[i].body.contentType == img.mime
  {
    ghost var vs := Derive(img, Sizes);
    var sizes := Sizes;
    var mime := img.mime;
    var cur := img;
    reqs := [];
    var i := 0;
    while i < |sizes|
      invariant 0 <= i <= |sizes| && sizes == Sizes
      invariant cur.mime == mime
      invariant Derive(cur, sizes[i..]) == vs[i..]
      invariant |reqs| == i
      invariant forall j :: 0 <= j < i ==> reqs[j] == ToPut(vs[j], fileName)
    {
      var size := sizes[i];
      var w := Resized(cur.width, size.ratio);
      var h := Resized(cur.height, size.ratio);
      var next := Image(w, h, mime);
      DeriveStep(cur, sizes[i..]);
      assert sizes[i..][1..] == sizes[i + 1..];
      assert vs[i] == Variant(size.path, w, h, mime) && vs[i + 1..] == Derive(next, sizes[i + 1..]);
      cur := next;
      reqs := reqs + [PutRequest(KeyOf(size.path, fileName), StoredObject(w, h, mime))];
      i := i + 1;
    }
    UploadKeysAreVariantKeys(img, fileName);
  }

  /** One write, unless the store refuses the key. */
  function Put(store: Store, req: PutRequest, refused: set<string>): Store
  {
    if req.key in refused then store else store[req.key := req.body]
  }

  /** All writes of one upload, in order. */
  function ApplyPuts(store: Store, reqs: seq<PutRequest>, refused: set<string>): Store
    decreases |reqs|
  {
    if |reqs| == 0 then store else ApplyPuts(Put(store, reqs[0], refused), reqs[1..], refused)
  }

  /** The first refused key in request order; `None` when every write goes through. */
  function FirstRefused(reqs: seq<PutRequest>, refused: set<string>): (r: Option<string>)
    ensures r.None? <==> forall i :: 0 <= i < |reqs| ==> reqs[i].key !in refused
    ensures r.Some? ==> r.value in refused && exists i :: 0 <= i < |reqs| && reqs[i].key == r.value
    decreases |reqs|
  {
    if |reqs| == 0 then None
    else if reqs[0].key in refused then Some(reqs[0].key)
    else FirstRefused(reqs[1..], refused)
  }

  function Acks(reqs: seq<PutRequest>): seq<UploadAck>
  {
    seq(|reqs|, i requires 0 <= i < |reqs| => UploadAck(reqs[i].key))
  }

  /** `uploadFile(file, fileName)`: strip the data-URI prefix, decode, derive
      the variants, write them all, and settle like `Promise.all`. Writes that
      went through stay in the store even when another write failed. */
  function Upload(store: Store, file: string, fileName: string,
                  decode: string -> Option<Image>, refused: set<string>): (r: UploadStep)
    ensures decode(Strip(file)).None? ==> r.store == store
    ensures r.result.Success? ==> |r.result.value| == |Sizes|
  {
    match decode(Strip(file))
    case None => UploadStep(store, Failure(DecodeError))
    case Some(img) =>
      var reqs := PutRequests(Derive(img, Sizes), fileName);
      var after := ApplyPuts(store, reqs, refused);
      match FirstRefused(reqs, refused)
      case Some(k) => UploadStep(after, Failure(PutError(k)))
      case None => UploadStep(after, Success(Acks(reqs)))
  }

  /** A key no request writes, or one the store refuses, keeps its object. */
  lemma {:induction false} ApplyPutsElsewhere(store: Store, reqs: seq<PutRequest>, refused: set<string>, k: string)
    requires k in refused || forall i :: 0 <= i < |reqs| ==> reqs[i].key != k
    ensures SameAt(ApplyPuts(store, reqs, refused), store, k)
    decreases |reqs|
  {
    if |reqs| > 0 {
      ApplyPutsElsewhere(Put(store, reqs[0], refused), reqs[1..], refused, k);
    }
  }

  /** With distinct keys, every accepted request's body ends up under its key. */
  lemma {:induction false} ApplyPutsAt(store: Store, reqs: seq<PutRequest>, refused: set<string>, i: nat)
    requires i < |reqs|
    requires forall a, b :: 0 <= a < b < |reqs| ==> reqs[a].key != reqs[b].key
    requires reqs[i].key !in refused
    ensures reqs[i].key in ApplyPuts(store, reqs, refused)
    ensures ApplyPuts(store, reqs, refused)[reqs[i].key] == reqs[i].body
    decreases |reqs|
  {
    var next := Put(store, reqs[0], refused);
    if i == 0 {
      ApplyPutsElsewhere(next, reqs[1..], refused, reqs[0].key);
    } else {
      ApplyPutsAt(next, reqs[1..], refused, i - 1);
    }
  }

  /** The upload writes exactly the variant keys of `fileName`, in table order,
      all with the source's MIME type. */
  lemma UploadKeysAreVariantKeys(img: Image, fileName: string)
    ensures |PutRequests(Derive(img, Sizes), fileName)| == |Sizes|
    ensures forall i :: 0 <= i < |Sizes| ==>
              PutRequests(Derive(img, Sizes), fileName)[i].key == VariantKeys(fileName)[i]
              && PutRequests(Derive(img, Sizes), fileName)[i].body.contentType == img.mime
    ensures forall a, b :: 0 <= a < b < |Sizes| ==>
              PutRequests(Derive(img, Sizes), fileName)[a].key != PutRequests(Derive(img, Sizes), fileName)[b].key
  {
    var reqs := PutRequests(Derive(img, Sizes), fileName);
    forall a, b | 0 <= a < b < |Sizes|
      ensures reqs[a].key != reqs[b].key
    {
      if reqs[a].key == reqs[b].key {
        VariantKeysInjective(fileName, fileName, a, b);
      }
    }
  }

  /** How an upload settles: a decode failure rejects before anything is
      written; otherwise it resolves with one acknowledgement per variant key,
      in table order, exactly when the store refuses none of them, and else
      rejects with a refused variant key. */
  lemma UploadOutcome(store: Store, file: string, fileName: string,
                      decode: string -> Option<Image>, refused: set<string>)
    ensures var step := Upload(store, file, fileName, decode, refused);
      && (decode(Strip(file)).None? <==> step.result == Failure(DecodeError))
      && (decode(Strip(file)).None? ==> step.store == store)
      && (step.result.Success? <==>
            decode(Strip(file)).Some? && forall i :: 0 <= i < |Sizes| ==> VariantKeys(fileName)[i] !in refused)
      && (step.result.Success? ==>
            |step.result.value| == |Sizes|
            && forall i :: 0 <= i < |Sizes| ==> step.result.value[i] == UploadAck(VariantKeys(fileName)[i]))
      && (step.result.Failure? && step.result.error.PutError? ==>
            step.result.error.key in refused && step.result.error.key in VariantKeys(fileName))
  {
    match decode(Strip(file))
    case None =>
    case Some(img) =>
      UploadKeysAreVariantKeys(img, fileName);
  }

  /** An upload changes nothing outside the variant keys of `fileName`, and
      nothing under a key the store refused: a failed upload leaves at most a
      subset of the four variants behind. */
  lemma UploadTouchesOnlyVariantKeys(store: Store, file: string, fileName: string,
                                     decode: string -> Option<Image>, refused: set<string>, k: string)
    requires k !in VariantKeys(fileName) || k in refused
    ensures SameAt(Upload(store, file, fileName, decode, refused).store, store, k)
  {
    match decode(Strip(file))
    case None =>
    case Some(img) =>
      var reqs := PutRequests(Derive(img, Sizes), fileName);
      UploadKeysAreVariantKeys(img, fileName);
      ApplyPutsElsewhere(store, reqs, refused, k);
  }

  /** Every variant the store accepts is stored under `path/fileName` with the
      size the dimension fold gives it and the source's MIME type. */
  lemma UploadStoresVariants(store: Store, file: string, fileName: string,
                             decode: string -> Option<Image>, refused: set<string>, i: nat)
    requires decode(Strip(file)).Some? && i < |Sizes|
    requires VariantKeys(fileName)[i] !in refused
    ensures var img := decode(Strip(file)).value;
            var v := Derive(img, Sizes)[i];
            var after := Upload(store, file, fileName, decode, refused).store;
      && VariantKeys(fileName)[i] in after
      && after[VariantKeys(fileName)[i]] == StoredObject(v.width, v.height, img.mime)
  {
    var img := decode(Strip(file)).value;
    var reqs := PutRequests(Derive(img, Sizes), fileName);
    UploadKeysAreVariantKeys(img, fileName);
    ApplyPutsAt(store, reqs, refused, i);
  }

  /** The result of `deleteFiles`: the store's batch answer, or the caught
      error, which is returned rather than thrown. */
  datatype DeleteResult = Deleted(keys: seq<string>) | Caught(error: string)

  datatype DeleteStep = DeleteStep(store: Store, result: DeleteResult)

  /** The loop of `deleteFiles` that fills `Delete.Objects`. */
  method DeleteKeys(fileKey: string) returns (keys: seq<string>)
    ensures |keys| == |Sizes|
    ensures forall i :: 0 <= i < |Sizes| ==> keys[i] == KeyOf(Sizes[i].path, fileKey)
    ensures keys == VariantKeys(fileKey)
  {
    keys := [];
    var i := 0;
    while i < |Sizes|
      invariant 0 <= i <= |Sizes|
      invariant |keys| == i
      invariant forall j :: 0 <= j < i ==> keys[j] == KeyOf(Sizes[j].path, fileKey)
    {
      keys := keys + [KeyOf(Sizes[i].path, fileKey)];
      i := i + 1;
    }
  }

  /** `deleteFiles(fileKey)`: one batch delete of all four variant keys,
      whether or not they exist. A transport failure leaves the store as it
      was and comes back as the result. */
  function DeleteFiles(store: Store, fileKey: string, transport: Option<string>): (r: DeleteStep)
    ensures r.result.Caught? <==> transport.Some?
    ensures r.result.Caught? ==> r.store == store
    ensures r.result.Deleted? ==> forall k :: k in r.store <==> k in store && k !in VariantKeys(fileKey)
  {
    var keys := VariantKeys(fileKey);
    match transport
    case Some(err) => DeleteStep(store, Caught(err))
    case None => DeleteStep(store - (set k | k in keys), Deleted(keys))
  }

  function KeysOf(reqs: seq<PutRequest>): seq<string>
  {
    seq(|reqs|, i requires 0 <= i < |reqs| => reqs[i].key)
  }

  /** `deleteFiles` names exactly the keys `uploadFile` writes, in the same order. */
  lemma DeleteKeysMatchUpload(store: Store, img: Image, fileName: string)
    ensures DeleteFiles(store, fileName, None).result.keys == KeysOf(PutRequests(Derive(img, Sizes), fileName))
  {
    UploadKeysAreVariantKeys(img, fileName);
  }

  /** A delete removes every variant key of the name and nothing else; keys
      that were never there do not make it fail. */
  lemma DeleteRemovesVariants(store: Store, fileKey: string)
    ensures var after := DeleteFiles(store, fileKey, None);
      && after.result == Deleted(VariantKeys(fileKey))
      && (forall i :: 0 <= i < |Sizes| ==> VariantKeys(fileKey)[i] !in after.store)
      && (forall k :: k !in VariantKeys(fileKey) ==> SameAt(after.store, store, k))
  {
  }

  /** A transport failure is handed back as the result and the store keeps
      every object. */
  lemma DeleteErrorIsValue(store: Store, fileKey: string, err: string)
    ensures DeleteFiles(store, fileKey, Some(err)) == DeleteStep(store, Caught(err))
  {
  }

  /** Deleting twice is the same as deleting once. */
  lemma DeleteIdempotent(store: Store, fileKey: string)
    ensures var once := DeleteFiles(store, fileKey, None);
      DeleteFiles(once.store, fileKey, None) == once
  {
  }

  /** Upload then delete of the same name leaves no variant key of it, and
      every other key as it was before the upload, whatever the upload's
      outcome. */
  lemma UploadThenDelete(store: Store, file: string, fileName: string,
                         decode: string -> Option<Image>, refused: set<string>)
    ensures var final := DeleteFiles(Upload(store, file, fileName, decode, refused).store, fileName, None).store;
      && (forall i :: 0 <= i < |Sizes| ==> VariantKeys(fileName)[i] !in final)
      && (forall k :: k !in VariantKeys(fileName) ==> SameAt(final, store, k))
  {
    var up := Upload(store, file, fileName, decode, refused);
    var final := DeleteFiles(up.store, fileName, None).store;
    DeleteRemovesVariants(up.store, fileName);
    forall k | k !in VariantKeys(fileName)
      ensures SameAt(final, store, k)
    {
      UploadTouchesOnlyVariantKeys(store, file, fileName, decode, refused, k);
    }
  }

  /** `listFiles`: the keys that start with `25%_resize`, ascending, or the
      error `listObjectsV2` rejects with (`listError`, a transport failure). */
  method ListFiles(store: Store, listError: Option<string>) returns (r: Result<seq<string>, string>)
    ensures r.Failure? <==> listError.Some?
    ensures r.Failure? ==> r.error == listError.value
    ensures r.Success? ==> forall k :: k in r.value <==> k in store && ListingPrefix <= k
    ensures r.Success? ==> forall i, j :: 0 <= i < j < |r.value| ==> Below(r.value[i], r.value[j])
  {
    if listError.Some? {
      return Failure(listError.value);
    }
    var keys := ListKeys(store, ListingPrefix);
    r := Success(keys);
  }

  /** The listing prefix is the path of the table's `25%_resize` row, so each
      asset is listed through its quarter-ratio variant. */
  lemma ListingPrefixIsQuarterRow()
    ensures ListingPrefix == Sizes[2].path
    ensures VariantKeys("x")[2] == KeyOf(ListingPrefix, "x")
  {
  }

  /** After a successful upload the name's `25%_resize` key is stored and
      matches the listing prefix; after a delete it is gone. */
  lemma ListedAfterUploadNotAfterDelete(store: Store, file: string, fileName: string,
                                        decode: string -> Option<Image>, refused: set<string>)
    ensures var up := Upload(store, file, fileName, decode, refused);
      && ListingPrefix <= KeyOf(ListingPrefix, fileName)
      && (up.result.Success? ==> KeyOf(ListingPrefix, fileName) in up.store)
      && KeyOf(ListingPrefix, fileName) !in DeleteFiles(up.store, fileName, None).store
  {
    var up := Upload(store, file, fileName, decode, refused);
    assert VariantKeys(fileName)[2] == KeyOf(ListingPrefix, fileName);
    UploadOutcome(store, file, fileName, decode, refused);
    if up.result.Success? {
      UploadStoresVariants(store, file, fileName, decode, refused, 2);
    }
    DeleteRemovesVariants(up.store, fileName);
  }

  /** One element of `getFiles`' answer: the full key and a signed URL for it. */
  datatype FileEntry = FileEntry(name: string, image: string)

  /** Signing the URL for `key` failed. */
  datatype SignError = SignError(key: string)

  /** Why `getFiles` rejects: the listing failed, signing a listed key failed,
      or (as written) `.promise` was called on the URL string of a listed key,
      which is a TypeError, not a signing failure. */
  datatype GetFilesError = ListFailed(message: string) | SignFailed(key: string) | PromiseNotAFunction(key: string)

  /** The loop of `getFiles`: sign each listed key in turn, stopping at the
      first failure. */
  method SignEntries(listing: seq<string>, sign: string -> Option<string>)
    returns (r: Result<seq<FileEntry>, SignError>)
    ensures r.Success? <==> forall i :: 0 <= i < |listing| ==> sign(listing[i]).Some?
    ensures r.Success? ==> |r.value| == |listing|
    ensures r.Success? ==> forall i :: 0 <= i < |listing| ==>
              r.value[i] == FileEntry(listing[i], sign(listing[i]).value)
    ensures r.Failure? ==>
              exists i :: (0 <= i < |listing| && r.error == SignError(listing[i])
                           && sign(listing[i]).None?
                           && forall j :: 0 <= j < i ==> sign(listing[j]).Some?)
  {
    var data := [];
    var i := 0;
    while i < |listing|
      invariant 0 <= i <= |listing|
      invariant |data| == i
      invariant forall j :: 0 <= j < i ==>
                  sign(listing[j]).Some? && data[j] == FileEntry(listing[j], sign(listing[j]).value)
    {
      match sign(listing[i]) {
        case None =>
          return Failure(SignError(listing[i]));
        case Some(url) =>
          data := data + [FileEntry(listing[i], url)];
      }
      i := i + 1;
    }
    return Success(data);
  }

  /** `getFiles`: one entry per listed key, in listing order, named by the
      full key (label segment included); a failed listing rejects with its
      error. */
  method GetFiles(store: Store, listError: Option<string>, sign: string -> Option<string>)
    returns (r: Result<seq<FileEntry>, GetFilesError>)
    ensures listError.Some? ==> r == Failure(ListFailed(listError.value))
    ensures r.Success? ==> forall e :: e in r.value ==>
              e.name in store && ListingPrefix <= e.name && sign(e.name) == Some(e.image)
    ensures r.Success? ==> forall k :: k in store && ListingPrefix <= k ==>
              exists e :: e in r.value && e.name == k
    ensures r.Success? ==> forall i, j :: 0 <= i < j < |r.value| ==> Below(r.value[i].name, r.value[j].name)
    ensures r.Failure? && listError.None? ==>
              (r.error.SignFailed? && r.error.key in store && ListingPrefix <= r.error.key
               && sign(r.error.key).None?)
    ensures listError.None? && (forall k :: k in store && ListingPrefix <= k ==> sign(k).Some?) ==> r.Success?
  {
    var listing := ListFiles(store, listError);
    if listing.Failure? {
      return Failure(ListFailed(listing.error));
    }
    var keys := listing.value;
    var signed := SignEntries(keys, sign);
    if signed.Failure? {
      return Failure(SignFailed(signed.error.key));
    }
    r := Success(signed.value);
    forall e | e in r.value
      ensures e.name in store && ListingPrefix <= e.name && sign(e.name) == Some(e.image)
    {
      var i :| 0 <= i < |r.value| && r.value[i] == e;
      assert e.name == keys[i];
    }
    forall k | k in store && ListingPrefix <= k
      ensures exists e :: e in r.value && e.name == k
    {
      var i :| 0 <= i < |keys| && keys[i] == k;
      assert r.value[i].name == k;
    }
  }

  /** `getFiles` as written. `this.s3.getSignedUrl('getObject', params)`
      without a callback returns the URL string synchronously, and a string
      has no `.promise`: the first pass of the loop throws a TypeError, so only
      an empty listing gets through. */
  method GetFilesAsWritten(store: Store, listError: Option<string>) returns (r: Result<seq<FileEntry>, GetFilesError>)
    ensures listError.Some? ==> r == Failure(ListFailed(listError.value))
    ensures r.Success? <==> listError.None? && forall k :: k in store ==> !(ListingPrefix <= k)
    ensures r.Success? ==> r.value == []
    ensures r.Failure? && listError.None? ==>
              (r.error.PromiseNotAFunction? && r.error.key in store && ListingPrefix <= r.error.key
               && forall k :: k in store && ListingPrefix <= k && k != r.error.key ==> Below(r.error.key, k))
  {
    var listing := ListFiles(store, listError);
    if listing.Failure? {
      return Failure(ListFailed(listing.error));
    }
    var keys := listing.value;
    if |keys| == 0 {
      forall k | k in store
        ensures !(ListingPrefix <= k)
      {
        assert k !in keys;
      }
      return Success([]);
    }
    forall k | k in store && ListingPrefix <= k && k != keys[0]
      ensures Below(keys[0], k)
    {
      var j :| 0 <= j < |keys| && keys[j] == k;
    }
    assert keys[0] in store && ListingPrefix <= keys[0];
    return Failure(PromiseNotAFunction(keys[0]));
  }

  /** The key `getSignedUrl` signs: the table's `original_size` path and the
      second `/`-segment of the composite key, whatever label it carried
      (`undefined` when there is no second segment). */
  function OriginalKey(fileKey: string): (k: string)
    ensures |k| > |Sizes[0].path| && k == KeyOf(Sizes[0].path, k[|Sizes[0].path| + 1..])
    ensures '/' !in k[|Sizes[0].path| + 1..]
  {
    var name := Interpolate(At(Split(fileKey, '/'), 1));
    assert '/' !in name by {
      assert '/' !in "undefined";
    }
    KeyOf("original_size", name)
  }

  /** For `label/name` with slash-free parts the rewritten key is the name's
      original-size variant key, and the label plays no part. */
  lemma OriginalKeyIgnoresLabel(path: string, name: string)
    requires '/' !in path && '/' !in name
    ensures OriginalKey(path + "/" + name) == VariantKeys(name)[0]
  {
    SecondSegment(path, name, '/');
  }

  /** A key without a slash is rewritten to `original_size/undefined`. */
  lemma OriginalKeyWithoutSlash(fileKey: string)
    requires '/' !in fileKey
    ensures OriginalKey(fileKey) == "original_size/undefined"
  {
    NoSecondSegment(fileKey, '/');
  }

  /** The `{ signedRequest }` object the callback builds. */
  datatype SignedRequest = SignedRequest(signedRequest: string)

  /** The JavaScript error `getSignedUrl` raises as written. */
  datatype ScriptError = ReferenceError(identifier: string)

  /** The names declared at the top level of s3.js: its imports, its
      constants and the class. The client is the instance field `this.s3`,
      which is no binding. */
  const ModuleBindings: set<string> :=
    {"S3", "uuidv4", "jimp", "regex", "bucketName", "region", "accessKeyId", "secretAccessKey", "S3Service"}

  /** The Node.js globals s3.js reads. */
  const NodeGlobals: set<string> := {"require", "process", "Buffer", "Promise", "Math"}

  /** `getSignedUrl` as written, against the names in `scope`. Class bodies are
      strict code: reading the unbound `s3` throws a ReferenceError, and so
      does assigning the unbound `result`. Even with both bound, the arrow
      function has no `return`, so it resolves to `undefined` (`None`). */
  function GetSignedUrlAsWritten(fileKey: string, scope: set<string>): Result<Option<SignedRequest>, ScriptError>
  {
    if "s3" !in scope then Failure(ReferenceError("s3"))
    else if "result" !in scope then Failure(ReferenceError("result"))
    else Success(None)
  }

  /** `getSignedUrl` as intended: sign the original-size key and wrap the URL. */
  function GetSignedUrl(fileKey: string, sign: string -> Option<string>): (r: Result<SignedRequest, SignError>)
    ensures r.Success? <==> sign(OriginalKey(fileKey)).Some?
    ensures r.Success? ==> sign(OriginalKey(fileKey)) == Some(r.value.signedRequest)
    ensures r.Failure? ==> r.error.key == OriginalKey(fileKey)
  {
    var key := OriginalKey(fileKey);
    match sign(key)
    case Some(url) => Success(SignedRequest(url))
    case None => Failure(SignError(key))
  }

  /** As written, in the scope s3.js actually has, the helper fails with a
      ReferenceError for `s3` on every key; and in no scope at all does it
      hand back a signed request. */
  lemma GetSignedUrlAsWrittenFails(fileKey: string, scope: set<string>)
    ensures GetSignedUrlAsWritten(fileKey, ModuleBindings + NodeGlobals) == Failure(ReferenceError("s3"))
    ensures GetSignedUrlAsWritten(fileKey, scope).Success? ==> GetSignedUrlAsWritten(fileKey, scope).value.None?
  {
    assert "s3" !in ModuleBindings + NodeGlobals;
  }

  /** For a listed name `25%_resize/f` the intended helper signs the original
      of the same asset, and succeeds exactly when that signing does. */
  lemma SignedUrlOfListedName(f: string, sign: string -> Option<string>)
    requires '/' !in f
    ensures GetSignedUrl(KeyOf(ListingPrefix, f), sign).Success?
            <==> sign(VariantKeys(f)[0]).Some?
    ensures GetSignedUrl(KeyOf(ListingPrefix, f), sign).Success? ==>
              GetSignedUrl(KeyOf(ListingPrefix, f), sign).value.signedRequest == sign(VariantKeys(f)[0]).value
  {
    OriginalKeyIgnoresLabel(ListingPrefix, f);
  }
}
