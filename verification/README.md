# Multi-resolution image assets: a Dafny model

This project models the image-asset core of a small Express/S3 backend.
`uploadFile` takes one base64 image and stores it at four fixed resolutions
under the keys `original_size/<name>`, `50%_resize/<name>`,
`25%_resize/<name>` and `10%_resize/<name>`. `listFiles`/`getFiles` list the
`25%_resize` prefix and sign a URL per key. `deleteFiles` deletes all four keys
of a name in one batch. `getSignedUrl` rewrites a composite key to its
`original_size` key. The model also covers the parts of the request handlers
in `user.js` that feed this core:

- `userUpload`'s status mapping;
- `userDelete`'s composite-key split;
- `userLogin`'s choice among the matching rows;
- `verifyToken`'s bearer-header parse and its 403 path.

Modules, leaves first:

- `Wrappers`: `Option` (JavaScript's `undefined`) and `Result`.
- `JsStrings`: the JavaScript behaviour the handlers use. This covers
  `split` on one character, `trim` with the ECMAScript whitespace set, an array
  index past the end, and `${undefined}` printing as `undefined`.
- `DataUri`: the anchored expression `^data:image\/\w+;base64,`, removed at
  most once.
- `Variants`: the size table as exact rationals (1/1, 1/2, 1/4, 1/10) and the
  dimension fold.
- `Bucket`: the object store as a `map<string, StoredObject>`. It holds the
  key scheme `path/name` and the store's ascending key order.
- `S3Service`: upload, listing with signing, batch delete and the
  original-size key. The store goes in and comes out as a value.
- `Router`: the `user.js` handlers.

Foreign behaviour enters as parameters:

- `decode`: base64 decoding plus `jimp.read`. It yields width, height and
  MIME type, or nothing when the payload is not an image.
- `refused`: the keys whose write the store rejects.
- `transport`: a batch-delete transport error.
- `sign`: URL signing.
- `compare`: bcrypt's password check.
- `sign` on claims: JWT signing.
- `verify`: JWT verification.
- `now`: the login clock.

## Behaviour of the code worth knowing

- **Variant sizes.** `jimp`'s `resize` changes the image in place, so each
  pass of the upload loop scales the previous variant, not the source.
  - A 100×100 source gives 100, 50, 12 and 1 pixels a side, not the 100, 50,
    25 and 10 that scaling from the source would give
    (`Variants.HundredPixelSource`).
  - jimp's `resize` turns a requested side of 0 into 1 (`Variants.Resized`).
    A source narrower than 80 pixels asks for 0 at `10%_resize`, one narrower
    than 8 at `25%_resize`, and a 1-pixel source at `50%_resize`; each such
    variant is 1 pixel wide, and the next pass reads that 1.
  - The closed form is source / 1, 2, 8 and 80, with 0 kept at 1
    (`Variants.SizesClosedForm`). It holds for every source size.
  - The `25%_resize` variant is narrower than a quarter of the source exactly
    when the source is at least 8 pixels wide
    (`Variants.FoldNarrowerThanIndependent`).
- **Ratios.** They are exact rationals with integer floor division. This
  assumes `Math.floor(w * r)` in double precision gives `floor(w * num / den)`
  for realistic image sizes. It does for the table's ratios 1, 0.5, 0.25 and
  0.1 at any size an image can have.
- **Listing entries.** They carry the full key (`25%_resize/<name>`), not a
  bare asset name. The listing prefix is the string `25%_resize` with no
  trailing slash.
- **Signed URLs.** `getSignedUrl` throws on every call instead of answering
  (see Findings).
- **Upload order.** `Promise.all` runs the writes concurrently. The model
  applies them in table order. The keys are distinct, so the final store is
  the same.
- **Copying the token payload.** `req.user[key] = payload[key]` creates every
  field except `__proto__`, whose assignment goes to the prototype setter.

## Model

| member | source | states |
|---|---|---|
| `JsStrings.Split` | user.js:48 | `key.split('/')` yields at least one piece, and no piece contains the separator |
| `JsStrings.JoinSplit` | user.js:48 | joining the pieces of a split with the separator restores the original key |
| `JsStrings.SplitJoin` | user.js:48 | splitting a join of separator-free pieces recovers exactly those pieces |
| `JsStrings.SecondSegment` | user.js:48-49 | element 1 of the split of `a/b`, with `a` and `b` slash-free, is `b` |
| `JsStrings.NoSecondSegment` | user.js:48-49 | a key without the separator has no element 1 (`undefined`) |
| `JsStrings.Trim` | user.js:336 | `trim()` returns the slice between leading and trailing whitespace; its ends are not whitespace |
| `JsStrings.TrimStart` | user.js:336 | leading whitespace is dropped up to the first non-whitespace character |
| `JsStrings.TrimEnd` | user.js:336 | trailing whitespace is dropped back to the last non-whitespace character |
| `JsStrings.TrimPadded` | user.js:336 | trimming removes exactly the whitespace padding around an unpadded core |
| `JsStrings.TrimUnpadded` | user.js:336 | a header whose ends are not whitespace is split unchanged |
| `DataUri.Strip` | s3.js:41 | the result of `replace(regex, '')` is a suffix of the input, and anything removed is one `data:image/<\w+>;base64,` prefix |
| `DataUri.MatchLength` | s3.js:5 | a match starts with `data:image/`, ends with `;base64,` and fits in the input (see `MatchSound`, `MatchComplete`) |
| `DataUri.MatchComplete` | s3.js:5 | every prefix in the language of the anchored expression is the one match found; the language is prefix-free |
| `DataUri.MatchSound` | s3.js:5 | the match found is in the language `data:image/` `\w+` `;base64,` |
| `DataUri.StripRemovesPrefix` | s3.js:41 | an input starting with a data-URI prefix loses exactly that prefix |
| `DataUri.StripKeepsUnprefixed` | s3.js:41 | an input with no data-URI prefix at position 0 is unchanged |
| `DataUri.StripOnce` | s3.js:41 | only one prefix is removed: a second prefix right behind the first stays |
| `DataUri.StripPngDataUri` | s3.js:41 | `data:image/png;base64,iVBO` is decoded from `iVBO` |
| `Variants.Derive` | s3.js:45-49 | one variant per table row, in table order, each with its row's path and the single MIME type read from the source |
| `Variants.Resized` | s3.js:47-49 | the side a variant gets is the floored scaled side, or 1 when that is 0 |
| `Variants.DeriveHead` | s3.js:47-49 | the first variant is the source's width and height resized by the first ratio |
| `Variants.DeriveChain` | s3.js:47-49 | each later variant is the PREVIOUS variant's size resized by its ratio, because `resize` mutates the image |
| `Variants.FirstVariantIsSourceSize` | s3.js:15-16 | the ratio-1 `original_size` variant has exactly the source's width and height |
| `Variants.ScaleShrinks` | s3.js:47-48 | flooring a size times a ratio of at most one never grows it |
| `Variants.ResizedShrinks` | s3.js:47-49 | resizing a non-empty side by a ratio of at most one never grows it |
| `Variants.DeriveNonIncreasing` | s3.js:45-49 | along a table of ratios at most one, widths and heights never increase |
| `Variants.SizesNonIncreasing` | s3.js:13-30 | over the table, every variant is at most as wide and as high as the one before |
| `Variants.SizesClosedForm` | s3.js:13-30 | over the table, the variants measure source / 1, 2, 8 and 80 on each side, a 0 becoming 1, for every source size |
| `Variants.HundredPixelSource` | s3.js:45-49 | a 100×100 source yields 100, 50, 12 and 1 pixels a side |
| `Variants.FoldNarrowerThanIndependent` | s3.js:47-49 | the `25%_resize` variant is narrower than a quarter of the source iff the source is at least 8 pixels wide |
| `Bucket.KeyOfInjective` | s3.js:50 | with slash-free paths, `path/name` determines both path and name |
| `Bucket.SizePathsSlashFree` | s3.js:13-30 | no table path contains `/` |
| `Bucket.SizePathsDistinct` | s3.js:13-30 | the four table paths are pairwise distinct |
| `Bucket.VariantKeysInjective` | s3.js:50 | the four keys of one name are pairwise distinct and never a key of another name |
| `Bucket.ListKeys` | s3.js:94-100 | the listing holds exactly the stored keys that start with the prefix, strictly ascending, so each appears once |
| `Bucket.AscendingIsDistinct` | s3.js:94-100 | a strictly ascending listing repeats no key |
| `S3Service.PlanUpload` | s3.js:45-58 | one upload request per table row, in table order; key `path/fileName`, `ContentType` the source MIME, sizes from the fold |
| `S3Service.FirstRefused` | s3.js:59 | `Promise.all` rejects exactly when some write is refused, and then with a refused key of this upload |
| `S3Service.Upload` | s3.js:40-60 | a payload that does not decode leaves the store as it was; a success acknowledges one write per table row (see `UploadOutcome`, `UploadTouchesOnlyVariantKeys`, `UploadStoresVariants`) |
| `S3Service.UploadKeysAreVariantKeys` | s3.js:50-55 | the upload writes the four variant keys of the name, in table order, pairwise distinct, all with the source MIME type |
| `S3Service.UploadOutcome` | s3.js:40-59 | a decode failure rejects with nothing written; otherwise the upload resolves with one acknowledgement per variant key exactly when no write is refused |
| `S3Service.UploadTouchesOnlyVariantKeys` | s3.js:57-59 | an upload changes no key outside the name's four, and none the store refused, so a failed upload leaves a subset of the four behind |
| `S3Service.UploadStoresVariants` | s3.js:47-57 | every accepted variant is stored under its key with the fold's size and the source MIME type |
| `S3Service.ApplyPutsAt` | s3.js:57 | with distinct keys, each accepted write's body ends up under its key |
| `S3Service.ApplyPutsElsewhere` | s3.js:57 | a key no write targets, or one the store refuses, keeps its object |
| `S3Service.DeleteKeys` | s3.js:114-116 | the batch lists one key `path/fileKey` per table row, in table order: the name's variant keys |
| `S3Service.DeleteFiles` | s3.js:105-123 | a transport error comes back as the value with the store untouched; otherwise the store loses exactly the name's variant keys (see `DeleteRemovesVariants`, `DeleteIdempotent`) |
| `S3Service.DeleteKeysMatchUpload` | s3.js:114-116 | `deleteFiles(n)` names exactly the keys `uploadFile(_, n)` writes, in the same order |
| `S3Service.DeleteRemovesVariants` | s3.js:105-119 | a delete removes all four variant keys and nothing else; missing keys do not make it fail |
| `S3Service.DeleteErrorIsValue` | s3.js:117-122 | a transport error is returned as the result, not thrown, and the store is unchanged |
| `S3Service.DeleteIdempotent` | s3.js:105-119 | deleting a name twice is the same as deleting it once |
| `S3Service.UploadThenDelete` | s3.js:105-119 | upload then delete of a name leaves none of its variant keys, and every other key as before the upload |
| `S3Service.ListFiles` | s3.js:94-103 | a listing failure is passed on; otherwise the listing is exactly the stored keys starting with `25%_resize`, ascending |
| `S3Service.ListingPrefixIsQuarterRow` | s3.js:98 | the listing prefix is the path of the table's `25%_resize` row |
| `S3Service.ListedAfterUploadNotAfterDelete` | s3.js:94-100 | after a successful upload the name's `25%_resize` key is stored and listable; after a delete it is gone |
| `S3Service.SignEntries` | s3.js:67-78 | one entry per listed key, in listing order, named by the full key with its signed URL; the first signing failure rejects |
| `S3Service.GetFiles` | s3.js:63-80 | a listing failure rejects with its error; on success every entry is a stored key with the prefix, every such key has an entry, names ascend; otherwise a listed key whose signing failed is named |
| `S3Service.GetFilesAsWritten` | s3.js:63-80 | as written, `getFiles` succeeds only on an empty listing, with no entries; a non-empty listing rejects with a TypeError at its least key |
| `S3Service.OriginalKey` | s3.js:126-130 | the key signed is `original_size/` followed by a slash-free name (see `OriginalKeyIgnoresLabel`, `OriginalKeyWithoutSlash`) |
| `S3Service.OriginalKeyIgnoresLabel` | s3.js:126-130 | for `label/name`, the key signed is `original_size/name` whatever the label |
| `S3Service.OriginalKeyWithoutSlash` | s3.js:126-130 | a key without `/` is rewritten to `original_size/undefined` |
| `S3Service.GetSignedUrlAsWrittenFails` | s3.js:125-144 | as written, with the names s3.js declares, the helper rejects with a ReferenceError for `s3` on every key; in no scope does it return a signed request |
| `S3Service.GetSignedUrl` | s3.js:125-143 | as intended, success iff signing the original-size key succeeds, with that URL; a failure names that key (see `SignedUrlOfListedName`) |
| `S3Service.SignedUrlOfListedName` | s3.js:125-143 | as intended, for a listed `25%_resize/f` the helper signs the original of `f` and succeeds exactly when that signing does |
| `Router.UserUpload` | user.js:30-45 | the status is 200 exactly when the body holds acknowledgements; a missing payload changes nothing (see `UserUploadStatus`) |
| `Router.UserUploadStatus` | user.js:30-45 | status 200 with one acknowledgement per variant key iff the payload is present, decodes and no write is refused; else 500 with the error |
| `Router.DeleteKeyFrom` | user.js:47-49 | the name handed to `deleteFiles` never contains `/` (see `DeleteKeyOfComposite`, `DeleteKeyWithoutSlash`, `DeleteKeyCutsNestedName`) |
| `Router.UserDelete` | user.js:46-51 | the answer is always status 200; a transport error leaves the store as it was; nothing is ever added (see `ListEntryDeletesUploadKeys`, `UserDeleteErrorAnswers200`) |
| `Router.DeleteKeyOfComposite` | user.js:47-49 | for `label/name` with slash-free parts, `deleteFiles` receives `name` |
| `Router.DeleteKeyWithoutSlash` | user.js:47-49 | a key without `/` deletes the variants of the name `undefined` |
| `Router.DeleteKeyCutsNestedName` | user.js:47-49 | for a listed `25%_resize/a/b`, the handler deletes the variants of `a`, not of `a/b` |
| `Router.ListEntryDeletesUploadKeys` | user.js:46-51 | a listed name `25%_resize/f`, with `f` slash-free, posted to the delete handler deletes exactly the keys the upload of `f` wrote |
| `Router.UploadListDeleteRoundTrip` | user.js:46-51 | upload `f`, post its listing entry to delete: no variant of `f` remains and every other key is as before the upload |
| `Router.UserDeleteErrorAnswers200` | user.js:49-50 | a delete that failed in transport still answers with the default status 200 and the caught error as the body |
| `Router.SelectLogin` | user.js:83-92 | claims are chosen iff some row has a stored hash and the supplied password passes the check; they come from the last such row |
| `Router.UserLogin` | user.js:79-107 | query failure gives 500; otherwise 200 with a token signed from the last matching row, or `Incorrect password` when none matches |
| `Router.BearerToken` | user.js:336-338 | a token found holds no space (see `BearerTokenOfHeader`, `BearerTokenNeedsSpace`) |
| `Router.BearerTokenOfHeader` | user.js:334-338 | a header `scheme token` with any whitespace padding yields `token`; the scheme word is not checked |
| `Router.BearerTokenNeedsSpace` | user.js:336-338 | a header with no space once trimmed yields no token |
| `Router.DoubleSpaceGivesEmptyToken` | user.js:336-338 | `scheme  token`, with two spaces, yields the empty token, which the middleware refuses |
| `Router.CopyPayload` | user.js:344-347 | `req.user` ends up holding every payload field with its value except `__proto__`, and nothing else |
| `Router.VerifyToken` | user.js:330-357 | 403 without `next` when the header is missing, has no token or an empty one, or verification fails; otherwise `req.user` is the payload without `__proto__`, `req.token` the token, and `next` runs |

## Findings

| source | as written | input that shows it | evidently intended | confidence | as-written member | corrected member |
|---|---|---|---|---|---|---|
| s3.js:73 | `this.s3.getSignedUrl('getObject', params).promise()`: without a callback, the SDK v2 `getSignedUrl` returns the URL string, and a string has no `promise` method, so the call throws a TypeError | a store holding `25%_resize/cat.png`, then `getFiles()` | use the returned URL (or `getSignedUrlPromise`) and return `{ name, image }` per listed key | not executed; medium (assumes the v2 SDK that `aws-sdk/clients/s3` loads) | `S3Service.GetFilesAsWritten` | `S3Service.GetFiles` |
| s3.js:133 | `getSignedUrl` reads `s3`, which is not declared (the client is `this.s3`), and assigns the undeclared `result` in class code, which is strict; it also never returns the callback's value | `getSignedUrl('25%_resize/cat.png')` | sign `original_size/<name>` and return `{ signedRequest: url }` | not executed; high | `S3Service.GetSignedUrlAsWrittenFails` | `S3Service.SignedUrlOfListedName` |

## Left out

- The network side of S3 is not modelled: pagination, signed-URL contents and per-key delete results. `listObjectsV2` returns at most 1000 keys per call, and the model lists every matching key. The store is a key map; a refused write, a failed listing and a failed batch delete are inputs.
- `S3Service.Upload`: `Promise.all` issues the writes concurrently and rejects with the first failure in time. The model applies writes in table order and reports the first refused key in table order. The keys are distinct, so the final store is the same.
- `S3Service.Upload`: an encoding failure in `getBufferAsync` part-way through the loop is not modelled. Neither is any per-variant failure other than a refused write.
- jimp internals are not modelled: pixel resampling, encoding, MIME inference and base64 decoding. Pixel bytes are reduced to width, height and content type.
- jimp is not part of this model. Each resized bitmap is taken to have the requested size, with a requested 0 rounded up to 1 as jimp's `resize` does, and a decoded image to have at least one pixel a side.
- `Variants.Scale`: exact rational arithmetic, not IEEE doubles. For the table's ratios this agrees with `Math.floor(w * r)` at image sizes.
- `getFile` (s3.js:83-92): a passthrough read of one key with no logic of its own.
- `userGet` and `userGetOriginal` (user.js:52-63): they only forward `getFiles` and `getSignedUrl`. A rejection there is unhandled and no reply is sent.
- `userRegister`, `createMeeting`, `getMeetings`, `deleteMeeting` and `sendEmail` are database, Zoom and SendGrid I/O. app.js is connection setup and routing.
- bcrypt and JWT are foreign. The password check, token signing and token verification are parameters. An error in the `jwt.sign` callback (user.js:95), which would send an undefined token, is not modelled.
- `Router.UserLogin`: `req.body.password` is taken to be a string or missing. The stored hash is taken to be a string, so an empty one is falsy; a `Buffer` would be truthy even when empty.
- `Router.UserDelete`: a missing `req.body.key` throws a TypeError that no handler catches. The model takes the key as present.
- `Router.VerifyToken`: the model stops at the decision to call `next`. Errors thrown by `next` itself are outside the `try` and not modelled.
- `Router.CopyPayload`: payload values are strings. An object value under `__proto__` would replace `req.user`'s prototype; that is not modelled.
- `Router.VerifyToken`: jsonwebtoken is a parameter (`verify`). Only its refusal of an empty token is modelled in the handler; every other check it makes is the parameter's.
- Logging (`console.log`) and the exact JSON encoding of response bodies are not modelled.
