/** The Checkers client (index.js): how it normalises the service URL, builds
    the path of a create or update request, signs it, and hands the request
    to the HTTP transport.

    Three collaborators the client cannot see are parameters here: the
    SHA-256 hex digest (`hash`), the HTTP transport (`transport`), and
    `JSON.stringify`, whose output enters as the request body. */
module CheckersClient {
  import opened Wrappers
  import opened JsStrings
  import opened UriEncoding

  /** The configuration a client holds: the normalised service URL and the
      credential pair. */
  datatype Client = Client(url: JsString, clientKey: JsString, clientSecret: JsString)

  datatype Method = POST | PATCH

  /** What the client hands to the transport. */
  datatype Request = Request(
    verb: Method,
    url: JsString,
    headers: map<JsString, JsString>,
    body: JsString)

  /** What the transport gives back: the full response, of which the client
      keeps the status and the parsed body (of whatever type `B` the JSON
      parser produces). */
  datatype FullResponse<B> = FullResponse(
    statusCode: int,
    headers: map<JsString, JsString>,
    body: B)

  /** What the client returns to its caller. */
  datatype CheckersResponse<B> = CheckersResponse(statusCode: int, body: B)

  /** How an operation can fail: an exception thrown while building the
      request, or the transport's own rejection, passed on as it is. */
  datatype ClientError<E> = Thrown(error: UriError) | Rejected(reason: E)

  const Check: JsString := Ascii("check")
  const Api: JsString := Ascii("api")
  const ClientKeyHeader: JsString := Ascii("X-Client-Key")
  const SignatureHeader: JsString := Ascii("X-Request-Signature")

  predicate EndsWithSlash(s: JsString) {
    |s| > 0 && s[|s| - 1] == Slash
  }

  predicate AllSlashes(s: JsString) {
    forall i | 0 <= i < |s| :: s[i] == Slash
  }

  // ---------------------------------------------------------------------
  // Constructor

  /** `url.replace(/\/+$/, '')`: the whole run of `/` at the end goes. What
      is left is a prefix of the URL, does not end in `/`, and only `/`
      was removed. */
  function StripTrailingSlashes(url: JsString): (r: JsString)
    ensures r <= url
    ensures !EndsWithSlash(r)
    ensures AllSlashes(url[|r|..])
    decreases |url|
  {
    if EndsWithSlash(url) then StripTrailingSlashes(url[..|url| - 1]) else url
  }

  /** There is only one way to split a URL into a part that does not end in
      `/` followed by nothing but `/`, and stripping finds it. */
  lemma StripTrailingSlashesUnique(url: JsString, p: JsString, t: JsString)
    requires url == p + t && AllSlashes(t) && !EndsWithSlash(p)
    ensures StripTrailingSlashes(url) == p
  {
    var r := StripTrailingSlashes(url);
    assert r == url[..|r|] && p == url[..|p|];
  }

  lemma StripTrailingSlashesIdempotent(url: JsString)
    ensures StripTrailingSlashes(StripTrailingSlashes(url)) == StripTrailingSlashes(url)
  {
    var r := StripTrailingSlashes(url);
    StripTrailingSlashesUnique(r, r, []);
    assert r + [] == r;
  }

  /** `new CheckersClient({url, clientKey, clientSecret})`: strip the
      trailing slashes, then `encodeURI`, which throws on an unpaired
      surrogate. The credentials are kept as given. */
  function NewClient(url: JsString, clientKey: JsString, clientSecret: JsString): (r: Result<Client, UriError>)
    ensures r.Success? ==> r.value.clientKey == clientKey && r.value.clientSecret == clientSecret
  {
    var base :- EncodeUri(StripTrailingSlashes(url));
    Success(Client(base, clientKey, clientSecret))
  }

  /** The constructor fails exactly on an unpaired surrogate in the kept
      part of the URL; otherwise the stored URL does not end in `/` and
      decodes to the stripped URL. */
  lemma NewClientUrl(url: JsString, clientKey: JsString, clientSecret: JsString)
    ensures NewClient(url, clientKey, clientSecret).Success? <==> WellFormed(StripTrailingSlashes(url))
    ensures NewClient(url, clientKey, clientSecret).Success? ==>
              var base := NewClient(url, clientKey, clientSecret).value.url;
              && !EndsWithSlash(base)
              && DecodeUriComponent(base) == Some(StripTrailingSlashes(url))
  {
    var stripped := StripTrailingSlashes(url);
    EncodeSucceedsIffWellFormed(WholeUri, stripped);
    if EncodeUri(stripped).Success? {
      EncodeThenDecode(WholeUri, stripped);
      if |stripped| > 0 {
        EncodeLastUnit(WholeUri, stripped);
      }
    }
  }

  /** The constructor encodes with `encodeURI`, not `encodeURIComponent`:
      a `/` inside the kept URL stays a `/`, and the text on each side of it
      is encoded on its own. */
  lemma NewClientKeepsSlash(url: JsString, clientKey: JsString, clientSecret: JsString, a: JsString, b: JsString)
    requires StripTrailingSlashes(url) == a + [Slash] + b && WellFormed(a) && WellFormed(b)
    ensures NewClient(url, clientKey, clientSecret).Success?
    ensures EncodeUri(a).Success? && EncodeUri(b).Success?
    ensures NewClient(url, clientKey, clientSecret).value.url == EncodeUri(a).value + [Slash] + EncodeUri(b).value
  {
    EncodeUriKeepsSlash(a, b);
  }

  // ---------------------------------------------------------------------
  // Paths

  /** The path of `createCheckRun`:
      `/check/{checkName}/{owner}/{repo}/{sha}`, each field through
      `encodeURIComponent`, checkName first. */
  function CreatePath(checkName: JsString, owner: JsString, repo: JsString, sha: JsString): Result<JsString, UriError> {
    var n :- EncodeUriComponent(checkName);
    var o :- EncodeUriComponent(owner);
    var r :- EncodeUriComponent(repo);
    var s :- EncodeUriComponent(sha);
    Success(CreateTemplate(n, o, r, s))
  }

  /** The template literal of the create path, given the encoded fields. */
  function CreateTemplate(n: JsString, o: JsString, r: JsString, s: JsString): JsString {
    [Slash] + Check + [Slash] + n + [Slash] + o + [Slash] + r + [Slash] + s
  }

  /** The path of `updateCheckRun`: `/check/{owner}/{repo}/{checkRunId}`,
      the id rendered in decimal before it is encoded. */
  function UpdatePath(owner: JsString, repo: JsString, checkRunId: SafeInteger): Result<JsString, UriError> {
    var o :- EncodeUriComponent(owner);
    var r :- EncodeUriComponent(repo);
    var i :- EncodeUriComponent(Decimal(checkRunId));
    Success(UpdateTemplate(o, r, i))
  }

  /** The template literal of the update path, given the encoded fields. */
  function UpdateTemplate(o: JsString, r: JsString, i: JsString): JsString {
    [Slash] + Check + [Slash] + o + [Slash] + r + [Slash] + i
  }

  lemma CheckHasNoSlash()
    ensures Slash !in Check && Slash !in Api
  {
  }

  /** Digits are left alone by `encodeURIComponent`. */
  lemma EncodeDecimal(n: nat)
    ensures EncodeUriComponent(Decimal(n)) == Success(Decimal(n))
  {
    EncodeUnescapedIsIdentity(Component, Decimal(n));
  }

  /** The create path is the pieces "", "check" and the four encoded
      fields joined with `/`. */
  lemma CreateTemplateIsJoin(n: JsString, o: JsString, r: JsString, s: JsString)
    ensures CreateTemplate(n, o, r, s) == Join([[], Check, n, o, r, s], Slash)
  {
    JoinTwo(r, s, Slash);
    JoinCons(o, [r, s], Slash);
    assert [o] + [r, s] == [o, r, s];
    JoinCons(n, [o, r, s], Slash);
    assert [n] + [o, r, s] == [n, o, r, s];
    JoinCons(Check, [n, o, r, s], Slash);
    assert [Check] + [n, o, r, s] == [Check, n, o, r, s];
    JoinCons([], [Check, n, o, r, s], Slash);
    assert [[]] + [Check, n, o, r, s] == [[], Check, n, o, r, s];
  }

  /** The update path is the pieces "", "check", the two encoded fields and
      the encoded id joined with `/`. */
  lemma UpdateTemplateIsJoin(o: JsString, r: JsString, i: JsString)
    ensures UpdateTemplate(o, r, i) == Join([[], Check, o, r, i], Slash)
  {
    JoinTwo(r, i, Slash);
    JoinCons(o, [r, i], Slash);
    assert [o] + [r, i] == [o, r, i];
    JoinCons(Check, [o, r, i], Slash);
    assert [Check] + [o, r, i] == [Check, o, r, i];
    JoinCons([], [Check, o, r, i], Slash);
    assert [[]] + [Check, o, r, i] == [[], Check, o, r, i];
  }

  /** Building the create path fails exactly on an unpaired surrogate in
      one of the fields. */
  lemma CreatePathSucceeds(checkName: JsString, owner: JsString, repo: JsString, sha: JsString)
    ensures CreatePath(checkName, owner, repo, sha).Success?
        <==> WellFormed(checkName) && WellFormed(owner) && WellFormed(repo) && WellFormed(sha)
  {
    EncodeSucceedsIffWellFormed(Component, checkName);
    EncodeSucceedsIffWellFormed(Component, owner);
    EncodeSucceedsIffWellFormed(Component, repo);
    EncodeSucceedsIffWellFormed(Component, sha);
  }

  /** Building the update path fails exactly on an unpaired surrogate in
      owner or repo; the id always encodes. */
  lemma UpdatePathSucceeds(owner: JsString, repo: JsString, checkRunId: SafeInteger)
    ensures UpdatePath(owner, repo, checkRunId).Success? <==> WellFormed(owner) && WellFormed(repo)
  {
    EncodeSucceedsIffWellFormed(Component, owner);
    EncodeSucceedsIffWellFormed(Component, repo);
    EncodeDecimal(checkRunId);
  }

  /** Split on `/`, the create path gives back exactly its pieces. */
  lemma CreatePathSplit(checkName: JsString, owner: JsString, repo: JsString, sha: JsString)
    requires CreatePath(checkName, owner, repo, sha).Success?
    ensures Split(CreatePath(checkName, owner, repo, sha).value, Slash) == [[], Check,
      EncodeUriComponent(checkName).value, EncodeUriComponent(owner).value,
      EncodeUriComponent(repo).value, EncodeUriComponent(sha).value]
  {
    var parts := [[], Check,
      EncodeUriComponent(checkName).value, EncodeUriComponent(owner).value,
      EncodeUriComponent(repo).value, EncodeUriComponent(sha).value];
    CreateTemplateIsJoin(parts[2], parts[3], parts[4], parts[5]);
    ComponentHasNoSlash(checkName);
    ComponentHasNoSlash(owner);
    ComponentHasNoSlash(repo);
    ComponentHasNoSlash(sha);
    CheckHasNoSlash();
    SplitJoin(parts, Slash);
  }

  /** Split on `/`, the update path gives back exactly its pieces. */
  lemma UpdatePathSplit(owner: JsString, repo: JsString, checkRunId: SafeInteger)
    requires UpdatePath(owner, repo, checkRunId).Success?
    ensures Split(UpdatePath(owner, repo, checkRunId).value, Slash) == [[], Check,
      EncodeUriComponent(owner).value, EncodeUriComponent(repo).value, Decimal(checkRunId)]
  {
    var parts := [[], Check, EncodeUriComponent(owner).value, EncodeUriComponent(repo).value, Decimal(checkRunId)];
    EncodeDecimal(checkRunId);
    UpdateTemplateIsJoin(parts[2], parts[3], parts[4]);
    ComponentHasNoSlash(owner);
    ComponentHasNoSlash(repo);
    CheckHasNoSlash();
    SplitJoin(parts, Slash);
  }

  /** The create path splits on `/` into exactly "", "check" and the four
      encoded fields in order, and each of those decodes back to its field. */
  lemma CreatePathLayout(checkName: JsString, owner: JsString, repo: JsString, sha: JsString)
    requires CreatePath(checkName, owner, repo, sha).Success?
    ensures var segs := Split(CreatePath(checkName, owner, repo, sha).value, Slash);
      && |segs| == 6 && segs[0] == [] && segs[1] == Check
      && DecodeUriComponent(segs[2]) == Some(checkName)
      && DecodeUriComponent(segs[3]) == Some(owner)
      && DecodeUriComponent(segs[4]) == Some(repo)
      && DecodeUriComponent(segs[5]) == Some(sha)
  {
    CreatePathSplit(checkName, owner, repo, sha);
    EncodeThenDecode(Component, checkName);
    EncodeThenDecode(Component, owner);
    EncodeThenDecode(Component, repo);
    EncodeThenDecode(Component, sha);
  }

  /** The update path splits on `/` into exactly "", "check", the two encoded
      fields and the id's decimal digits, unchanged; each reads back. */
  lemma UpdatePathLayout(owner: JsString, repo: JsString, checkRunId: SafeInteger)
    requires UpdatePath(owner, repo, checkRunId).Success?
    ensures var segs := Split(UpdatePath(owner, repo, checkRunId).value, Slash);
      && |segs| == 5 && segs[0] == [] && segs[1] == Check
      && DecodeUriComponent(segs[2]) == Some(owner)
      && DecodeUriComponent(segs[3]) == Some(repo)
      && segs[4] == Decimal(checkRunId)
      && DigitsValue(segs[4]) == checkRunId
  {
    UpdatePathSplit(owner, repo, checkRunId);
    EncodeThenDecode(Component, owner);
    EncodeThenDecode(Component, repo);
    DecimalValue(checkRunId);
  }

  /** Fields made only of unreserved characters (letters, digits and
      `-_.!~*'()`) appear in the create path verbatim. */
  lemma CreatePathVerbatim(checkName: JsString, owner: JsString, repo: JsString, sha: JsString)
    requires forall i | 0 <= i < |checkName| :: IsUriUnreserved(checkName[i])
    requires forall i | 0 <= i < |owner| :: IsUriUnreserved(owner[i])
    requires forall i | 0 <= i < |repo| :: IsUriUnreserved(repo[i])
    requires forall i | 0 <= i < |sha| :: IsUriUnreserved(sha[i])
    ensures CreatePath(checkName, owner, repo, sha) == Success(CreateTemplate(checkName, owner, repo, sha))
  {
    EncodeUnescapedIsIdentity(Component, checkName);
    EncodeUnescapedIsIdentity(Component, owner);
    EncodeUnescapedIsIdentity(Component, repo);
    EncodeUnescapedIsIdentity(Component, sha);
  }

  /** An owner and repo made only of unreserved characters appear in the
      update path verbatim, followed by the id's decimal digits. */
  lemma UpdatePathVerbatim(owner: JsString, repo: JsString, checkRunId: SafeInteger)
    requires forall i | 0 <= i < |owner| :: IsUriUnreserved(owner[i])
    requires forall i | 0 <= i < |repo| :: IsUriUnreserved(repo[i])
    ensures UpdatePath(owner, repo, checkRunId) == Success(UpdateTemplate(owner, repo, Decimal(checkRunId)))
  {
    EncodeUnescapedIsIdentity(Component, owner);
    EncodeUnescapedIsIdentity(Component, repo);
    EncodeDecimal(checkRunId);
  }

  /** Check "My Check" on commit abc123 of Acme/widgets: the space in the
      name is percent-encoded, the other fields pass unchanged, so the path
      is `/check/My%20Check/Acme/widgets/abc123`. */
  lemma CreatePathExample(checkName: JsString, owner: JsString, repo: JsString, sha: JsString)
    requires checkName == Ascii("My Check") && owner == Ascii("Acme")
    requires repo == Ascii("widgets") && sha == Ascii("abc123")
    ensures CreatePath(checkName, owner, repo, sha).Success?
    ensures Split(CreatePath(checkName, owner, repo, sha).value, Slash)
         == [[], Ascii("check"), Ascii("My%20Check"), Ascii("Acme"), Ascii("widgets"), Ascii("abc123")]
  {
    var my, check := Ascii("My"), Ascii("Check");
    assert checkName == my + [0x20] + check;
    EncodedSpace(my, check);
    assert my + Ascii("%20") + check == Ascii("My%20Check");
    EncodeUnescapedIsIdentity(Component, owner);
    EncodeUnescapedIsIdentity(Component, repo);
    EncodeUnescapedIsIdentity(Component, sha);
    CreatePathSplit(checkName, owner, repo, sha);
  }

  /** A space between two unreserved runs becomes `%20`. */
  lemma EncodedSpace(a: JsString, b: JsString)
    requires forall i | 0 <= i < |a| :: IsUriUnreserved(a[i])
    requires forall i | 0 <= i < |b| :: IsUriUnreserved(b[i])
    ensures EncodeUriComponent(a + [0x20] + b) == Success(a + Ascii("%20") + b)
  {
    EncodeUnescapedIsIdentity(Component, b);
    assert ([0x20] + b)[1..] == b;
    assert Utf8(0x20) == [0x20];
    assert PercentBytes([0x20]) == Ascii("%20");
    assert Encode(Component, [0x20] + b) == Success(Ascii("%20") + b);
    EncodePrefix(Component, a, [0x20] + b);
    assert a + [0x20] + b == a + ([0x20] + b);
    assert a + (Ascii("%20") + b) == a + Ascii("%20") + b;
  }

  /** Check run 42 of Acme/widgets. */
  lemma UpdatePathExample(owner: JsString, repo: JsString, checkRunId: SafeInteger)
    requires owner == Ascii("Acme") && repo == Ascii("widgets") && checkRunId == 42
    ensures UpdatePath(owner, repo, checkRunId) == Success(Ascii("/check/Acme/widgets/42"))
  {
    UpdatePathVerbatim(owner, repo, checkRunId);
    assert Decimal(checkRunId) == Ascii("42");
    UpdateExampleTemplate(owner, repo);
  }

  lemma UpdateExampleTemplate(owner: JsString, repo: JsString)
    requires owner == Ascii("Acme") && repo == Ascii("widgets")
    ensures UpdateTemplate(owner, repo, Ascii("42")) == Ascii("/check/Acme/widgets/42")
  {
  }

  /** Different fields never give the same create path. */
  lemma CreatePathInjective(
    n1: JsString, o1: JsString, r1: JsString, s1: JsString,
    n2: JsString, o2: JsString, r2: JsString, s2: JsString)
    requires CreatePath(n1, o1, r1, s1).Success? && CreatePath(n2, o2, r2, s2).Success?
    ensures CreatePath(n1, o1, r1, s1) == CreatePath(n2, o2, r2, s2)
        <==> n1 == n2 && o1 == o2 && r1 == r2 && s1 == s2
  {
    CreatePathLayout(n1, o1, r1, s1);
    CreatePathLayout(n2, o2, r2, s2);
  }

  /** Different fields never give the same update path. */
  lemma UpdatePathInjective(o1: JsString, r1: JsString, i1: SafeInteger, o2: JsString, r2: JsString, i2: SafeInteger)
    requires UpdatePath(o1, r1, i1).Success? && UpdatePath(o2, r2, i2).Success?
    ensures UpdatePath(o1, r1, i1) == UpdatePath(o2, r2, i2) <==> o1 == o2 && r1 == r2 && i1 == i2
  {
    UpdatePathLayout(o1, r1, i1);
    UpdatePathLayout(o2, r2, i2);
  }

  // ---------------------------------------------------------------------
  // Signature

  /** The string `_getRequestSignature` hashes: the path (without `/api`),
      the body's length in decimal, and the secret, with nothing between
      them. */
  function SignatureInput(path: JsString, body: JsString, secret: JsString): JsString {
    path + Decimal(|body|) + secret
  }

  /** The `X-Request-Signature` value: the hex SHA-256 digest (`hash`) of
      the signature input. */
  function Signature(hash: JsString -> JsString, path: JsString, body: JsString, secret: JsString): JsString {
    hash(SignatureInput(path, body, secret))
  }

  /** The signature input reads back as: the path, then a run of decimal
      digits whose value is the body's length, then the secret. */
  lemma SignatureInputLayout(path: JsString, body: JsString, secret: JsString)
    ensures var m := SignatureInput(path, body, secret);
      && |path| < |m| - |secret|
      && m[..|path|] == path
      && m[|m| - |secret|..] == secret
      && (forall i | |path| <= i < |m| - |secret| :: IsDigit(m[i]))
      && DigitsValue(m[|path|..|m| - |secret|]) == |body|
  {
    var m := SignatureInput(path, body, secret);
    var d := Decimal(|body|);
    assert m[|path|..|m| - |secret|] == d;
    assert forall i | |path| <= i < |m| - |secret| :: m[i] == d[i - |path|];
    DecimalValue(|body|);
  }

  /** For a fixed path and secret, the signed string changes exactly when the
      body's length does: the body's content is not signed. */
  lemma SignatureInputSeesOnlyLength(path: JsString, secret: JsString, b1: JsString, b2: JsString)
    ensures SignatureInput(path, b1, secret) == SignatureInput(path, b2, secret) <==> |b1| == |b2|
  {
    if SignatureInput(path, b1, secret) == SignatureInput(path, b2, secret) {
      SignatureInputLayout(path, b1, secret);
      SignatureInputLayout(path, b2, secret);
    }
  }

  lemma SameLengthSameSignature(hash: JsString -> JsString, path: JsString, secret: JsString, b1: JsString, b2: JsString)
    requires |b1| == |b2|
    ensures Signature(hash, path, b1, secret) == Signature(hash, path, b2, secret)
  {
    SignatureInputSeesOnlyLength(path, secret, b1, b2);
  }

  /** With no separator between the path and the length, two different
      update requests can sign the same string: check run 1 with a body of
      23 code units and check run 12 with a body of 3. */
  lemma SignatureInputAmbiguous(owner: JsString, repo: JsString, secret: JsString, b1: JsString, b2: JsString)
    requires WellFormed(owner) && WellFormed(repo)
    requires |b1| == 23 && |b2| == 3
    ensures UpdatePath(owner, repo, 1).Success? && UpdatePath(owner, repo, 12).Success?
    ensures UpdatePath(owner, repo, 1) != UpdatePath(owner, repo, 12)
    ensures SignatureInput(UpdatePath(owner, repo, 1).value, b1, secret)
         == SignatureInput(UpdatePath(owner, repo, 12).value, b2, secret)
  {
    UpdatePathSucceeds(owner, repo, 1);
    UpdatePathSucceeds(owner, repo, 12);
    UpdatePathInjective(owner, repo, 1, owner, repo, 12);
    EncodeDecimal(1);
    EncodeDecimal(12);
    assert Decimal(1) == [0x31];
    assert Decimal(12) == [0x31, 0x32];
    assert Decimal(23) == [0x32, 0x33];
    assert Decimal(3) == [0x33];
    var o := EncodeUriComponent(owner).value;
    var r := EncodeUriComponent(repo).value;
    var prefix := [Slash] + Check + [Slash] + o + [Slash] + r + [Slash];
    assert UpdatePath(owner, repo, 1).value == prefix + [0x31];
    assert UpdatePath(owner, repo, 12).value == prefix + [0x31, 0x32];
  }

  // ---------------------------------------------------------------------
  // Requests

  /** The request `_request` hands to the transport: `{url}/api{path}`,
      exactly the two authentication headers, and the method and body as
      given. */
  function BuildRequest(client: Client, hash: JsString -> JsString, verb: Method, path: JsString, body: JsString): (req: Request)
    ensures req.verb == verb && req.body == body
    ensures req.headers.Keys == {ClientKeyHeader, SignatureHeader} && |req.headers| == 2
    ensures req.headers[ClientKeyHeader] == client.clientKey
    ensures req.headers[SignatureHeader] == Signature(hash, path, body, client.clientSecret)
  {
    var url := client.url + [Slash] + Api + path;
    var headers := map[
      ClientKeyHeader := client.clientKey,
      SignatureHeader := Signature(hash, path, body, client.clientSecret)];
    Request(verb, url, headers, body)
  }

  /** The URL is the stored URL, then `/api`, then the path, and the path
      in it is the one the signature header was computed over. */
  lemma SignedPathIsUrlTail(client: Client, hash: JsString -> JsString, verb: Method, path: JsString, body: JsString)
    ensures var req := BuildRequest(client, hash, verb, path, body);
      && req.url == client.url + [Slash] + Api + path
      && req.headers[SignatureHeader] == Signature(hash, path, body, client.clientSecret)
  {
  }

  /** Seen as `/`-separated segments, the URL is the stored URL's segments,
      then "api", then the path's segments. */
  lemma RequestUrlSegments(client: Client, hash: JsString -> JsString, verb: Method, path: JsString, body: JsString)
    requires |path| > 0 && path[0] == Slash
    ensures Split(BuildRequest(client, hash, verb, path, body).url, Slash)
         == Split(client.url, Slash) + [Api] + Split(path, Slash)[1..]
  {
    ApiUrlSegments(client.url, path);
  }

  lemma ApiUrlSegments(base: JsString, path: JsString)
    requires |path| > 0 && path[0] == Slash
    ensures Split(base + [Slash] + Api + path, Slash) == Split(base, Slash) + [Api] + Split(path, Slash)[1..]
  {
    assert base + [Slash] + Api + path == base + [Slash] + (Api + path);
    SplitConcat(base, Api + path, Slash);
    PathSegmentsAfterApi(path);
  }

  /** "api" directly before a path that starts with `/` is a segment of its
      own, followed by the path's segments. */
  lemma PathSegmentsAfterApi(path: JsString)
    requires |path| > 0 && path[0] == Slash
    ensures Split(Api + path, Slash) == [Api] + Split(path, Slash)[1..]
  {
    var tail := path[1..];
    assert Api + path == Api + [Slash] + tail;
    CheckHasNoSlash();
    SplitAfterPiece(Api, tail, Slash);
    assert Split(path, Slash)[1..] == Split(tail, Slash);
  }

  /** A non-empty URL stored by the constructor has a non-empty last
      segment, so no empty segment comes before "api". */
  lemma LastSegmentNotEmpty(url: JsString, clientKey: JsString, clientSecret: JsString)
    requires NewClient(url, clientKey, clientSecret).Success?
    ensures var base := NewClient(url, clientKey, clientSecret).value.url;
      |base| > 0 ==> Split(base, Slash)[|Split(base, Slash)| - 1] != []
  {
    NewClientUrl(url, clientKey, clientSecret);
    var base := NewClient(url, clientKey, clientSecret).value.url;
    if |base| > 0 {
      LastSegmentOf(base);
    }
  }

  /** A string that does not end in `/` does not end in an empty segment. */
  lemma LastSegmentOf(s: JsString)
    requires |s| > 0 && !EndsWithSlash(s)
    ensures Split(s, Slash)[|Split(s, Slash)| - 1] != []
  {
    JoinSplit(s, Slash);
  }

  /** `_request`: build and send the request, and return the transport's
      status and parsed body untouched, whatever the status. A transport
      rejection is passed on unchanged. */
  function Dispatch<B, E>(
    client: Client, hash: JsString -> JsString, transport: Request -> Result<FullResponse<B>, E>,
    verb: Method, path: JsString, body: JsString): (r: Result<CheckersResponse<B>, ClientError<E>>)
    ensures var res := transport(BuildRequest(client, hash, verb, path, body));
      && (r.Success? <==> res.Success?)
      && (res.Success? ==> r.value.statusCode == res.value.statusCode && r.value.body == res.value.body)
      && (res.Failure? ==> r.error == Rejected(res.error))
  {
    match transport(BuildRequest(client, hash, verb, path, body))
    case Success(res) => Success(CheckersResponse(res.statusCode, res.body))
    case Failure(reason) => Failure(Rejected(reason))
  }

  // ---------------------------------------------------------------------
  // Operations

  /** `createCheckRun`: POST the body to the create path. An unpaired
      surrogate in a field throws before anything is sent. */
  function CreateCheckRun<B, E>(
    client: Client, hash: JsString -> JsString, transport: Request -> Result<FullResponse<B>, E>,
    owner: JsString, repo: JsString, sha: JsString, checkName: JsString, body: JsString)
    : (r: Result<CheckersResponse<B>, ClientError<E>>)
    ensures r == Failure(Thrown(URIError))
        <==> !(WellFormed(checkName) && WellFormed(owner) && WellFormed(repo) && WellFormed(sha))
  {
    CreatePathSucceeds(checkName, owner, repo, sha);
    match CreatePath(checkName, owner, repo, sha)
    case Failure(_) => Failure(Thrown(URIError))
    case Success(path) => Dispatch(client, hash, transport, POST, path, body)
  }

  /** `updateCheckRun`: PATCH the body to the update path. */
  function UpdateCheckRun<B, E>(
    client: Client, hash: JsString -> JsString, transport: Request -> Result<FullResponse<B>, E>,
    owner: JsString, repo: JsString, checkRunId: SafeInteger, body: JsString)
    : (r: Result<CheckersResponse<B>, ClientError<E>>)
    ensures r == Failure(Thrown(URIError)) <==> !(WellFormed(owner) && WellFormed(repo))
  {
    UpdatePathSucceeds(owner, repo, checkRunId);
    match UpdatePath(owner, repo, checkRunId)
    case Failure(_) => Failure(Thrown(URIError))
    case Success(path) => Dispatch(client, hash, transport, PATCH, path, body)
  }

  /** The request a create call builds for well-formed fields. */
  lemma CreateCheckRunWire(
    client: Client, hash: JsString -> JsString,
    owner: JsString, repo: JsString, sha: JsString, checkName: JsString, body: JsString)
    requires WellFormed(checkName) && WellFormed(owner) && WellFormed(repo) && WellFormed(sha)
    ensures CreatePath(checkName, owner, repo, sha).Success?
    ensures var req := BuildRequest(client, hash, POST, CreatePath(checkName, owner, repo, sha).value, body);
      && req.verb == POST && req.body == body
      && Split(req.url, Slash) == Split(client.url, Slash) + [Api, Check,
           EncodeUriComponent(checkName).value, EncodeUriComponent(owner).value,
           EncodeUriComponent(repo).value, EncodeUriComponent(sha).value]
  {
    CreatePathSucceeds(checkName, owner, repo, sha);
    var path := CreatePath(checkName, owner, repo, sha).value;
    var segs := [Check,
      EncodeUriComponent(checkName).value, EncodeUriComponent(owner).value,
      EncodeUriComponent(repo).value, EncodeUriComponent(sha).value];
    assert path == CreateTemplate(segs[1], segs[2], segs[3], segs[4]);
    CreatePathSplit(checkName, owner, repo, sha);
    assert Split(path, Slash)[1..] == segs;
    RequestUrlSegments(client, hash, POST, path, body);
    assert [Api] + segs == [Api, Check, segs[1], segs[2], segs[3], segs[4]];
    assert Split(client.url, Slash) + [Api] + segs == Split(client.url, Slash) + ([Api] + segs);
  }

  /** For well-formed fields, `createCheckRun` sends a POST of the body to
      a URL whose segments are the stored URL's, then "api", "check" and the
      four encoded fields, and answers with exactly what the transport
      answered to it: its status and body, or its rejection. */
  lemma CreateCheckRunAnswer<B, E>(
    client: Client, hash: JsString -> JsString, transport: Request -> Result<FullResponse<B>, E>,
    owner: JsString, repo: JsString, sha: JsString, checkName: JsString, body: JsString)
    requires WellFormed(checkName) && WellFormed(owner) && WellFormed(repo) && WellFormed(sha)
    ensures CreatePath(checkName, owner, repo, sha).Success?
    ensures var req := BuildRequest(client, hash, POST, CreatePath(checkName, owner, repo, sha).value, body);
      var r := CreateCheckRun(client, hash, transport, owner, repo, sha, checkName, body);
      && req.verb == POST && req.body == body
      && Split(req.url, Slash) == Split(client.url, Slash) + [Api, Check,
           EncodeUriComponent(checkName).value, EncodeUriComponent(owner).value,
           EncodeUriComponent(repo).value, EncodeUriComponent(sha).value]
      && match transport(req)
      case Success(res) => r == Success(CheckersResponse(res.statusCode, res.body))
      case Failure(reason) => r == Failure(Rejected(reason))
  {
    CreateCheckRunWire(client, hash, owner, repo, sha, checkName, body);
  }

  /** The request an update call builds for a well-formed owner and repo. */
  lemma UpdateCheckRunWire(
    client: Client, hash: JsString -> JsString,
    owner: JsString, repo: JsString, checkRunId: SafeInteger, body: JsString)
    requires WellFormed(owner) && WellFormed(repo)
    ensures UpdatePath(owner, repo, checkRunId).Success?
    ensures var req := BuildRequest(client, hash, PATCH, UpdatePath(owner, repo, checkRunId).value, body);
      && req.verb == PATCH && req.body == body
      && Split(req.url, Slash) == Split(client.url, Slash) + [Api, Check,
           EncodeUriComponent(owner).value, EncodeUriComponent(repo).value, Decimal(checkRunId)]
  {
    UpdatePathSucceeds(owner, repo, checkRunId);
    var path := UpdatePath(owner, repo, checkRunId).value;
    var segs := [Check, EncodeUriComponent(owner).value, EncodeUriComponent(repo).value, Decimal(checkRunId)];
    EncodeDecimal(checkRunId);
    assert path == UpdateTemplate(segs[1], segs[2], segs[3]);
    UpdatePathSplit(owner, repo, checkRunId);
    assert Split(path, Slash)[1..] == segs;
    RequestUrlSegments(client, hash, PATCH, path, body);
    assert [Api] + segs == [Api, Check, segs[1], segs[2], segs[3]];
    assert Split(client.url, Slash) + [Api] + segs == Split(client.url, Slash) + ([Api] + segs);
  }

  /** For a well-formed owner and repo, `updateCheckRun` sends a PATCH of
      the body to a URL whose segments are the stored URL's, then "api",
      "check", the two encoded fields and the id's decimal digits, and
      answers with exactly what the transport answered to it. */
  lemma UpdateCheckRunAnswer<B, E>(
    client: Client, hash: JsString -> JsString, transport: Request -> Result<FullResponse<B>, E>,
    owner: JsString, repo: JsString, checkRunId: SafeInteger, body: JsString)
    requires WellFormed(owner) && WellFormed(repo)
    ensures UpdatePath(owner, repo, checkRunId).Success?
    ensures var req := BuildRequest(client, hash, PATCH, UpdatePath(owner, repo, checkRunId).value, body);
      var r := UpdateCheckRun(client, hash, transport, owner, repo, checkRunId, body);
      && req.verb == PATCH && req.body == body
      && Split(req.url, Slash) == Split(client.url, Slash) + [Api, Check,
           EncodeUriComponent(owner).value, EncodeUriComponent(repo).value, Decimal(checkRunId)]
      && match transport(req)
      case Success(res) => r == Success(CheckersResponse(res.statusCode, res.body))
      case Failure(reason) => r == Failure(Rejected(reason))
  {
    UpdateCheckRunWire(client, hash, owner, repo, checkRunId, body);
  }
}
