/**
  The installation handshake of an admin application
  (src/admin/application.ts): checking the signed parameters of an
  installation request and deriving the Basic-style auth token. MD5 is a
  function parameter: the model assumes nothing about it.
 */
module Installation {
  import opened Optional
  import opened JsText
  import Utf8
  import Base64

  /** The six query fields of an installation request. */
  datatype InstallationRequest = InstallationRequest(
    applicationKey: string,
    token: string,
    requestTime: string,
    validationHash: string,
    subdomain: string,
    email: string)

  /** The application's configured key pair. */
  datatype Application = Application(secretAppKey: string, publicAppKey: string)

  /** How validate ends: normally, or by throwing an Error with a message. */
  datatype Outcome = Valid | Invalid(message: string)

  const ParametersIncorrect: string := "Request parameters are not correct."
  const ChecksumMismatch: string := "Checksums doesn't match."

  /** The three signed fields, in the order the request lists them. */
  function SignedFields(request: InstallationRequest): seq<string> {
    [request.token, request.applicationKey, request.requestTime]
  }

  /** The text whose MD5 the request must carry: the signed fields sorted, joined with `|`, then the secret. */
  function SignedMessage(app: Application, request: InstallationRequest): string {
    Join(SortStrings(SignedFields(request)), "|") + app.secretAppKey
  }

  /**
    validate: the application key must be the configured public key, and
    the MD5 of the signed message must equal the validation hash up to
    letter case. The key is checked first.
   */
  function Validate(app: Application, request: InstallationRequest, md5: string -> string): (r: Outcome)
    ensures r == Valid <==>
      request.applicationKey == app.publicAppKey
      && Lower(md5(SignedMessage(app, request))) == Lower(request.validationHash)
    ensures request.applicationKey != app.publicAppKey ==> r == Invalid(ParametersIncorrect)
    ensures request.applicationKey == app.publicAppKey && r != Valid ==> r == Invalid(ChecksumMismatch)
  {
    if request.applicationKey != app.publicAppKey then Invalid(ParametersIncorrect)
    else if Lower(md5(SignedMessage(app, request))) != Lower(request.validationHash) then Invalid(ChecksumMismatch)
    else Valid
  }

  /** A request with the wrong key is refused the same way whatever the hash function: nothing is hashed. */
  lemma KeyCheckedBeforeHashing(app: Application, request: InstallationRequest, md5: string -> string, other: string -> string)
    requires request.applicationKey != app.publicAppKey
    ensures Validate(app, request, md5) == Validate(app, request, other) == Invalid(ParametersIncorrect)
  {
  }

  /** The signed message is the join of any ascending arrangement of the three fields. */
  lemma SignedMessageSorted(app: Application, request: InstallationRequest, sorted: seq<string>)
    requires SortedSeq(sorted) && multiset(sorted) == multiset(SignedFields(request))
    ensures SignedMessage(app, request) == Join(sorted, "|") + app.secretAppKey
  {
    SortedUnique(SortStrings(SignedFields(request)), sorted);
  }

  /** Two requests whose signed fields are the same three values in another order sign the same message. */
  lemma SignedMessagePermutation(app: Application, request: InstallationRequest, other: InstallationRequest)
    requires multiset(SignedFields(other)) == multiset(SignedFields(request))
    ensures SignedMessage(app, other) == SignedMessage(app, request)
  {
    SortPermutationInvariant(SignedFields(other), SignedFields(request));
  }

  /** Two requests with the same key and hash whose signed fields differ only in order validate alike. */
  lemma ValidatePermutation(app: Application, request: InstallationRequest, other: InstallationRequest, md5: string -> string)
    requires multiset(SignedFields(other)) == multiset(SignedFields(request))
    requires other.applicationKey == request.applicationKey && other.validationHash == request.validationHash
    ensures Validate(app, other, md5) == Validate(app, request, md5)
  {
    SignedMessagePermutation(app, request, other);
  }

  /** Changing the letter case of the validation hash never changes the outcome. */
  lemma ValidateIgnoresHashCase(app: Application, request: InstallationRequest, md5: string -> string)
    ensures Validate(app, request.(validationHash := Upper(request.validationHash)), md5) == Validate(app, request, md5)
    ensures Validate(app, request.(validationHash := Lower(request.validationHash)), md5) == Validate(app, request, md5)
  {
    LowerAbsorbsCase(request.validationHash);
    assert SignedFields(request.(validationHash := Upper(request.validationHash))) == SignedFields(request);
    assert SignedFields(request.(validationHash := Lower(request.validationHash))) == SignedFields(request);
  }

  // ---------------------------------------------------------------------
  // createAuthToken

  /** The app password: the lower-case MD5 of the token followed by the secret. */
  function AppPassword(app: Application, request: InstallationRequest, md5: string -> string): string {
    Lower(md5(request.token + app.secretAppKey))
  }

  /** The credentials the token carries: public key, `:`, app password. */
  function Credentials(app: Application, request: InstallationRequest, md5: string -> string): string {
    app.publicAppKey + ":" + AppPassword(app, request, md5)
  }

  /** createAuthToken: Base64 of the UTF-8 bytes of the credentials. */
  function CreateAuthToken(app: Application, request: InstallationRequest, md5: string -> string): (token: string)
    ensures |token| % 4 == 0
    ensures |token| >= (|Credentials(app, request, md5)| + 2) / 3 * 4
  {
    Base64.Encode(Utf8.Encode(Credentials(app, request, md5)))
  }

  /** Decoding the token, Base64 then UTF-8, gives back the credentials. */
  lemma AuthTokenRoundTrip(app: Application, request: InstallationRequest, md5: string -> string)
    ensures var bytes := Base64.Decode(CreateAuthToken(app, request, md5));
      bytes.Some? && Utf8.Decode(bytes.value) == Some(Credentials(app, request, md5))
  {
    var credentials := Credentials(app, request, md5);
    Base64.DecodeEncode(Utf8.Encode(credentials));
    Utf8.DecodeEncode(credentials);
  }

  /**
    A public key without `:` is recovered from the credentials as the text
    before the first `:`, and the app password as the text after it.
   */
  lemma CredentialsSplit(app: Application, request: InstallationRequest, md5: string -> string)
    requires ':' !in app.publicAppKey
    ensures var c := Credentials(app, request, md5);
      var i := IndexOf(c, ':');
      i == |app.publicAppKey| && c[..i] == app.publicAppKey && c[i + 1..] == AppPassword(app, request, md5)
  {
    IndexOfAfter(app.publicAppKey, ':', AppPassword(app, request, md5));
    var c := Credentials(app, request, md5);
    assert c == app.publicAppKey + [':'] + AppPassword(app, request, md5);
  }

  /** The token depends on the token field and the key pair only, not on the other request fields. */
  lemma AuthTokenDependsOnTokenOnly(app: Application, request: InstallationRequest, other: InstallationRequest, md5: string -> string)
    requires other.token == request.token
    ensures CreateAuthToken(app, other, md5) == CreateAuthToken(app, request, md5)
  {
  }

  /** Different credentials never share a token. */
  lemma AuthTokenInjective(app: Application, request: InstallationRequest, other: Application, otherRequest: InstallationRequest, md5: string -> string)
    requires CreateAuthToken(app, request, md5) == CreateAuthToken(other, otherRequest, md5)
    ensures Credentials(app, request, md5) == Credentials(other, otherRequest, md5)
  {
    AuthTokenRoundTrip(app, request, md5);
    AuthTokenRoundTrip(other, otherRequest, md5);
  }
}
