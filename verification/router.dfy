/** The request handlers around the image store: upload, delete by composite
    key, login match selection, and the bearer-token middleware.

    Database rows, the clock, bcrypt's password check and the JWT library are
    parameters; a handler's reply is a single `Response` value. */
module Router {
  import opened Wrappers
  import opened JsStrings
  import opened DataUri
  import opened Variants
  import opened Bucket
  import opened S3Service

  /** What a handler sends back. */
  datatype Body =
    | UploadAcks(acks: seq<UploadAck>)
    | UploadFailed(error: UploadError)
    | ScriptFailure(message: string)
    | DeleteOutcome(result: DeleteResult)
    | TokenJson(token: string)
    | MessageJson(message: string)
    | ErrorJson(err: string)

  datatype Response = Response(status: nat, body: Body)

  datatype HandlerStep = HandlerStep(store: Store, response: Response)

  /** `userUpload`: the status starts at 200 and becomes 500 when `uploadFile`
      throws; the one reply is sent from the `finally` block. A missing
      `encoded_file` makes `file.replace` throw a TypeError; a missing
      `encoded_file_name` is interpolated as `undefined`. */
  function UserUpload(store: Store, encodedFile: Option<string>, fileName: Option<string>,
                      decode: string -> Option<Image>, refused: set<string>): (r: HandlerStep)
    ensures r.response.status == 200 <==> r.response.body.UploadAcks?
    ensures encodedFile.None? ==> r.store == store
  {
    match encodedFile
    case None => HandlerStep(store, Response(500, ScriptFailure("TypeError")))
    case Some(file) =>
      var step := Upload(store, file, Interpolate(fileName), decode, refused);
      match step.result
      case Success(acks) => HandlerStep(step.store, Response(200, UploadAcks(acks)))
      case Failure(err) => HandlerStep(step.store, Response(500, UploadFailed(err)))
  }

  /** The upload handler answers 200 with one acknowledgement per variant key
      exactly when the payload is present, decodes, and every write goes
      through; otherwise it answers 500 with the error. */
  lemma UserUploadStatus(store: Store, encodedFile: Option<string>, fileName: Option<string>,
                         decode: string -> Option<Image>, refused: set<string>)
    ensures var out := UserUpload(store, encodedFile, fileName, decode, refused);
      && (out.response.status == 200 || out.response.status == 500)
      && (out.response.status == 200 <==>
            encodedFile.Some? && decode(Strip(encodedFile.value)).Some?
            && forall i :: 0 <= i < |Sizes| ==> VariantKeys(Interpolate(fileName))[i] !in refused)
      && (out.response.status == 200 ==>
            out.response.body.UploadAcks?
            && |out.response.body.acks| == |Sizes|
            && forall i :: 0 <= i < |Sizes| ==>
                 out.response.body.acks[i] == UploadAck(VariantKeys(Interpolate(fileName))[i]))
      && (out.response.status == 500 ==> out.response.body.UploadFailed? || out.response.body.ScriptFailure?)
  {
    if encodedFile.Some? {
      UploadOutcome(store, encodedFile.value, Interpolate(fileName), decode, refused);
    }
  }

  /** The asset name `userDelete` hands to `deleteFiles`: the second
      `/`-segment of the posted key, `undefined` when there is none. */
  function DeleteKeyFrom(key: string): (name: string)
    ensures '/' !in name
  {
    assert '/' !in "undefined";
    Interpolate(At(Split(key, '/'), 1))
  }

  /** `userDelete`: delete the variants named by the key's second segment and
      send whatever `deleteFiles` returned, with the default status 200. */
  function UserDelete(store: Store, key: string, transport: Option<string>): (r: HandlerStep)
    ensures r.response.status == 200
    ensures transport.Some? ==> r.store == store
    ensures forall k :: k in r.store ==> k in store
  {
    var step := DeleteFiles(store, DeleteKeyFrom(key), transport);
    HandlerStep(step.store, Response(200, DeleteOutcome(step.result)))
  }

  /** For `label/name` with slash-free parts the handler deletes `name`. */
  lemma DeleteKeyOfComposite(path: string, name: string)
    requires '/' !in path && '/' !in name
    ensures DeleteKeyFrom(KeyOf(path, name)) == name
  {
    SecondSegment(path, name, '/');
  }

  /** A key without a slash deletes the variants of the name `undefined`. */
  lemma DeleteKeyWithoutSlash(key: string)
    requires '/' !in key
    ensures DeleteKeyFrom(key) == "undefined"
  {
    NoSecondSegment(key, '/');
  }

  /** A name that itself holds a slash is cut at it: listing `25%_resize/a/b`
      and posting it back deletes the variants of `a`, not those of `a/b`. */
  lemma DeleteKeyCutsNestedName(a: string, b: string)
    requires '/' !in a
    ensures DeleteKeyFrom(KeyOf(ListingPrefix, a + "/" + b)) == a
  {
    var k := KeyOf(ListingPrefix, a + "/" + b);
    assert k == ListingPrefix + "/" + a + ['/'] + b;
    SplitAfterFirst(ListingPrefix, a + ['/'] + b, '/');
    SplitAfterFirst(a, b, '/');
    assert ListingPrefix + "/" + (a + ['/'] + b) == k;
  }

  /** A listed name `25%_resize/f`, posted to the delete handler, deletes
      exactly the keys `uploadFile` writes for `f`, in the same order. */
  lemma ListEntryDeletesUploadKeys(store: Store, img: Image, f: string)
    requires '/' !in f
    ensures var out := UserDelete(store, KeyOf(ListingPrefix, f), None);
      && out.response == Response(200, DeleteOutcome(Deleted(KeysOf(PutRequests(Derive(img, Sizes), f)))))
      && out.store == DeleteFiles(store, f, None).store
  {
    DeleteKeyOfComposite(ListingPrefix, f);
    DeleteKeysMatchUpload(store, img, f);
  }

  /** Upload `f`, take its listing entry, post it to the delete handler: no
      variant of `f` remains and every other key is as before the upload. */
  lemma UploadListDeleteRoundTrip(store: Store, file: string, f: string,
                                  decode: string -> Option<Image>, refused: set<string>)
    requires '/' !in f
    ensures var up := Upload(store, file, f, decode, refused);
            var final := UserDelete(up.store, KeyOf(ListingPrefix, f), None).store;
      && (up.result.Success? ==> KeyOf(ListingPrefix, f) in up.store)
      && (forall i :: 0 <= i < |Sizes| ==> VariantKeys(f)[i] !in final)
      && (forall k :: k !in VariantKeys(f) ==> SameAt(final, store, k))
  {
    DeleteKeyOfComposite(ListingPrefix, f);
    ListedAfterUploadNotAfterDelete(store, file, f, decode, refused);
    UploadThenDelete(store, file, f, decode, refused);
  }

  /** A failed delete still answers 200, with the caught error as the body. */
  lemma UserDeleteErrorAnswers200(store: Store, key: string, err: string)
    ensures UserDelete(store, key, Some(err)) == HandlerStep(store, Response(200, DeleteOutcome(Caught(err))))
  {
  }

  /** One row of `SELECT * FROM user WHERE email = :email`. */
  datatype UserRow = UserRow(id: int, email: string, hashedPassword: Option<string>)

  /** The payload signed into the login token. */
  datatype Claims = Claims(id: int, email: string, timeCreated: string)

  /** JavaScript truthiness of a possibly missing string. */
  predicate Truthy(v: Option<string>)
  {
    v.Some? && v.value != ""
  }

  /** The condition of the login loop: a stored hash, a supplied password, and
      bcrypt accepting the pair. */
  predicate PasswordMatches(row: UserRow, password: Option<string>, compare: (string, string) -> bool)
  {
    Truthy(row.hashedPassword) && Truthy(password) && compare(password.value, row.hashedPassword.value)
  }

  /** Row `i` matches and no later row does. */
  predicate LastMatch(rows: seq<UserRow>, password: Option<string>, compare: (string, string) -> bool, i: int)
  {
    && 0 <= i < |rows|
    && PasswordMatches(rows[i], password, compare)
    && forall j :: i < j < |rows| ==> !PasswordMatches(rows[j], password, compare)
  }

  /** The loop of `userLogin`: every matching row overwrites `log`, so the
      claims come from the last match. */
  method SelectLogin(rows: seq<UserRow>, password: Option<string>,
                     compare: (string, string) -> bool, now: string) returns (log: Option<Claims>)
    ensures log.Some? <==> exists i :: 0 <= i < |rows| && PasswordMatches(rows[i], password, compare)
    ensures log.Some? ==> exists i :: LastMatch(rows, password, compare, i)
                                      && log.value == Claims(rows[i].id, rows[i].email, now)
  {
    log := None;
    ghost var at := -1;
    var i := 0;
    while i < |rows|
      invariant 0 <= i <= |rows|
      invariant log.None? <==> forall j :: 0 <= j < i ==> !PasswordMatches(rows[j], password, compare)
      invariant log.Some? ==> 0 <= at < i && PasswordMatches(rows[at], password, compare)
      invariant log.Some? ==> forall j :: at < j < i ==> !PasswordMatches(rows[j], password, compare)
      invariant log.Some? ==> log.value == Claims(rows[at].id, rows[at].email, now)
    {
      var row := rows[i];
      if Truthy(row.hashedPassword) && Truthy(password) && compare(password.value, row.hashedPassword.value) {
        log := Some(Claims(row.id, row.email, now));
        at := i;
      }
      i := i + 1;
    }
    if log.Some? {
      assert LastMatch(rows, password, compare, at);
    }
  }

  /** `userLogin`: a failed query answers 500; otherwise 200 with a token
      signed from the last matching row, or the message `Incorrect password`
      when no row matches. */
  method UserLogin(query: Result<seq<UserRow>, string>, password: Option<string>,
                   compare: (string, string) -> bool, now: string, sign: Claims -> string)
    returns (resp: Response)
    ensures query.Failure? ==> resp == Response(500, ErrorJson(query.error))
    ensures query.Success? ==> resp.status == 200
    ensures query.Success? ==>
              (resp.body.TokenJson? <==>
                 exists i :: 0 <= i < |query.value| && PasswordMatches(query.value[i], password, compare))
    ensures query.Success? && resp.body.TokenJson? ==>
              exists i :: LastMatch(query.value, password, compare, i)
                          && resp.body.token == sign(Claims(query.value[i].id, query.value[i].email, now))
    ensures query.Success? && !resp.body.TokenJson? ==> resp.body == MessageJson("Incorrect password")
  {
    match query {
      case Failure(err) =>
        resp := Response(500, ErrorJson(err));
      case Success(rows) =>
        var log := SelectLogin(rows, password, compare, now);
        match log {
          case Some(claims) =>
            resp := Response(200, TokenJson(sign(claims)));
          case None =>
            resp := Response(200, MessageJson("Incorrect password"));
        }
    }
  }

  /** The token of an `Authorization` header: element 1 of the trimmed header
      split on single spaces. */
  function BearerToken(header: string): (token: Option<string>)
    ensures token.Some? ==> ' ' !in token.value
  {
    At(Split(Trim(header), ' '), 1)
  }

  /** `scheme token`, with any whitespace padding, yields `token`; the scheme
      word itself is not checked. */
  lemma BearerTokenOfHeader(front: string, scheme: string, token: string, back: string)
    requires forall k :: 0 <= k < |front| ==> IsWhitespace(front[k])
    requires forall k :: 0 <= k < |back| ==> IsWhitespace(back[k])
    requires |scheme| > 0 && !IsWhitespace(scheme[0]) && ' ' !in scheme
    requires |token| > 0 && !IsWhitespace(token[|token| - 1]) && ' ' !in token
    ensures BearerToken(front + (scheme + " " + token) + back) == Some(token)
  {
    var core := scheme + " " + token;
    assert core[0] == scheme[0];
    assert core[|core| - 1] == token[|token| - 1];
    TrimPadded(front, core, back);
    assert core == scheme + [' '] + token;
    SecondSegment(scheme, token, ' ');
  }

  /** A header with no space once trimmed carries no token. */
  lemma BearerTokenNeedsSpace(header: string)
    requires ' ' !in Trim(header)
    ensures BearerToken(header) == None
  {
    NoSecondSegment(Trim(header), ' ');
  }

  /** What `verifyToken` does: reply with the status and stop, or set
      `req.user` and `req.token` and call `next`. */
  datatype Gate = Reject(status: nat) | Next(user: map<string, string>, token: string)

  /** The one own property name that assignment does not create: `o[k] = v`
      with this `k` calls the inherited prototype setter instead, which
      ignores a string value. */
  const ProtoKey: string := "__proto__"

  /** The loop copying every payload field onto the fresh object `req.user`:
      every field arrives with its value except `__proto__`. */
  method CopyPayload(payload: map<string, string>) returns (user: map<string, string>)
    ensures user == payload - {ProtoKey}
  {
    user := map[];
    var pending := payload.Keys;
    while pending != {}
      invariant pending <= payload.Keys
      invariant user.Keys == payload.Keys - pending - {ProtoKey}
      invariant forall k :: k in user ==> user[k] == payload[k]
      decreases pending
    {
      var k :| k in pending;
      if k != ProtoKey {
        user := user[k := payload[k]];
      }
      pending := pending - {k};
    }
  }

  /** `verifyToken`: a missing header, a header without a second segment, an
      empty token (which jsonwebtoken refuses before checking anything), and a
      token `verify` rejects (or whose payload is falsy) all answer 403
      without calling `next`; otherwise `req.user` holds every payload field
      but `__proto__`, `req.token` the token, and `next` runs. */
  method VerifyToken(header: Option<string>, verify: string -> Option<map<string, string>>)
    returns (g: Gate)
    ensures g.Reject? ==> g.status == 403
    ensures g.Next? <==> header.Some? && BearerToken(header.value).Some?
                         && BearerToken(header.value).value != ""
                         && verify(BearerToken(header.value).value).Some?
    ensures g.Next? ==> g.token == BearerToken(header.value).value
                        && g.user == verify(g.token).value - {ProtoKey}
  {
    if header.None? {
      return Reject(403);
    }
    var token := BearerToken(header.value);
    if token.None? || token.value == "" {
      return Reject(403);
    }
    var payload := verify(token.value);
    if payload.None? {
      return Reject(403);
    }
    var user := CopyPayload(payload.value);
    g := Next(user, token.value);
  }

  /** Two spaces after the scheme leave an empty element 1, which is refused
      like a missing token. */
  lemma DoubleSpaceGivesEmptyToken(scheme: string, token: string)
    requires |scheme| > 0 && !IsWhitespace(scheme[0]) && ' ' !in scheme
    requires |token| > 0 && !IsWhitespace(token[|token| - 1])
    ensures BearerToken(scheme + "  " + token) == Some("")
  {
    var h := scheme + "  " + token;
    assert h[0] == scheme[0] && h[|h| - 1] == token[|token| - 1];
    TrimUnpadded(h);
    assert h == scheme + [' '] + ("" + [' '] + token);
    SplitAfterFirst(scheme, "" + [' '] + token, ' ');
    SplitAfterFirst("", token, ' ');
  }
}
