/**
 * The session manager (AuthService): builds the registration and OAuth2
 * token requests, and keeps the session the token endpoint returns in the
 * browser's key-value storage, which it reads back through `isLogged`,
 * `accessToken` and `refreshToken`, and wipes on `logout`.
 *
 * The HTTP exchange is not modelled as I/O: each operation returns the
 * request it would send and is handed the response the server gave.
 */
module Auth {
  import opened Wrappers
  import PercentEncoding
  import FormUrlEncoded

  /** The storage key the session is kept under. */
  const SessionKey: string := "session"
  const AccessTokenField: string := "access_token"
  const RefreshTokenField: string := "refresh_token"

  /** A JSON object, field name to field value. */
  type Fields = map<string, string>

  /** What the storage holds under one key: the session is a parsed JSON object; other keys hold text. */
  datatype Entry = Text(text: string) | Record(fields: Fields)

  /** The configured OAuth client (environment.oauth), opaque to this core. */
  datatype OAuthConfig = OAuthConfig(clientId: string, clientSecret: string, scope: string)

  /** The two endpoints the service posts to (HttpApi.oauthLogin, HttpApi.userRegister). */
  datatype Endpoint = OAuthLogin | UserRegister

  datatype Body = Form(text: string) | Json(fields: Fields)

  datatype HttpRequest = HttpRequest(verb: string, url: Endpoint, headers: map<string, string>, body: Body)

  datatype HttpError = TransportFailure | AuthenticationRejected(message: string)

  /** What the server answered: a JSON object, or an error. */
  datatype HttpResponse = Ok(body: Fields) | Failed(error: HttpError)

  /** The user request `register` is called with, carrying the Spanish field name `codigo`. */
  datatype UserRequest = UserRequest(codigo: string, email: string, password: string)

  function Lookup(fields: Fields, name: string): (r: Option<string>)
    ensures r.Some? <==> name in fields
    ensures r.Some? ==> r.value == fields[name]
  {
    if name in fields then Some(fields[name]) else None
  }

  predicate OccursAt(text: string, part: string, k: int) {
    0 <= k && k + |part| <= |text| && text[k..k + |part|] == part
  }

  /** A text contains a part when the part occurs at some offset. */
  predicate Contains(text: string, part: string) {
    exists k :: 0 <= k <= |text| && OccursAt(text, part, k)
  }

  // ---------------------------------------------------------------- register

  /** The JSON body of the registration request: `codigo` goes on the wire as `code`. */
  function RegisterBody(user: UserRequest): Fields
  {
    map["code" := user.codigo, "email" := user.email, "password" := user.password]
  }

  /** How the registration endpoint reads a body back into a user. */
  function ReadRegisterBody(body: Fields): Option<UserRequest>
  {
    if "code" in body && "email" in body && "password" in body
    then Some(UserRequest(body["code"], body["email"], body["password"]))
    else None
  }

  function RegisterRequest(user: UserRequest): HttpRequest
  {
    HttpRequest("POST", UserRegister, map[], Json(RegisterBody(user)))
  }

  /**
   * The registration body carries exactly `code`, `email` and `password`, no
   * `codigo`, and the endpoint reads the caller's data back unchanged.
   */
  lemma RegisterBodyRenamesCodigo(user: UserRequest)
    ensures RegisterBody(user).Keys == {"code", "email", "password"}
    ensures "codigo" !in RegisterBody(user)
    ensures ReadRegisterBody(RegisterBody(user)) == Some(user)
  {
  }

  // ------------------------------------------------------------ token grants

  /** One `name=value` piece of a form body. */
  function Piece(name: string, value: string): string
  {
    name + "=" + value
  }

  /** The `name=value` pieces of the password-grant body; user input and scope are encoded, the client credentials are not. */
  function PasswordGrantPieces(config: OAuthConfig, username: string, password: string): seq<string>
  {
    [ Piece("grant_type", "password"),
      Piece("client_id", config.clientId),
      Piece("client_secret", config.clientSecret),
      Piece("username", PercentEncoding.Encode(username)),
      Piece("password", PercentEncoding.Encode(password)),
      Piece("scope", PercentEncoding.Encode(config.scope)) ]
  }

  function PasswordGrantRequest(config: OAuthConfig, username: string, password: string): HttpRequest
  {
    HttpRequest("POST", OAuthLogin, map["Content-Type" := FormUrlEncoded.ContentType],
                Form(FormUrlEncoded.Join(PasswordGrantPieces(config, username, password))))
  }

  /** The `name=value` pieces of the refresh-grant body. */
  function RefreshGrantPieces(config: OAuthConfig, refreshToken: string): seq<string>
  {
    [ Piece("grant_type", "refresh_token"),
      Piece("client_id", config.clientId),
      Piece("client_secret", config.clientSecret),
      Piece("refresh_token", refreshToken),
      Piece("scope", PercentEncoding.Encode(config.scope)) ]
  }

  function RefreshGrantRequest(config: OAuthConfig, refreshToken: string): HttpRequest
  {
    HttpRequest("POST", OAuthLogin, map["Content-Type" := FormUrlEncoded.ContentType],
                Form(FormUrlEncoded.Join(RefreshGrantPieces(config, refreshToken))))
  }

  lemma {:induction false} JoinedContainsAll(pieces: seq<string>)
    ensures forall i :: 0 <= i < |pieces| ==> Contains(FormUrlEncoded.Join(pieces), pieces[i])
  {
    forall i | 0 <= i < |pieces| ensures Contains(FormUrlEncoded.Join(pieces), pieces[i]) {
      var k := FormUrlEncoded.JoinContains(pieces, i);
      assert OccursAt(FormUrlEncoded.Join(pieces), pieces[i], k);
    }
  }

  /**
   * Both grants POST a form to the token endpoint; the password-grant body
   * contains `grant_type=password`, the client id and secret, and the
   * percent-encoded username, password and scope.
   */
  lemma PasswordGrantWireFormat(config: OAuthConfig, username: string, password: string)
    ensures PasswordGrantRequest(config, username, password).verb == "POST"
    ensures PasswordGrantRequest(config, username, password).url == OAuthLogin
    ensures PasswordGrantRequest(config, username, password).headers["Content-Type"] == "application/x-www-form-urlencoded"
    ensures var body := PasswordGrantRequest(config, username, password).body.text;
      && Contains(body, "grant_type=password")
      && Contains(body, "client_id=" + config.clientId)
      && Contains(body, "client_secret=" + config.clientSecret)
      && Contains(body, "username=" + PercentEncoding.Encode(username))
      && Contains(body, "password=" + PercentEncoding.Encode(password))
      && Contains(body, "scope=" + PercentEncoding.Encode(config.scope))
  {
    var pieces := PasswordGrantPieces(config, username, password);
    JoinedContainsAll(pieces);
    assert pieces[0] == "grant_type=password";
    assert pieces[1] == "client_id=" + config.clientId;
    assert pieces[2] == "client_secret=" + config.clientSecret;
    assert pieces[3] == "username=" + PercentEncoding.Encode(username);
    assert pieces[4] == "password=" + PercentEncoding.Encode(password);
    assert pieces[5] == "scope=" + PercentEncoding.Encode(config.scope);
  }

  /**
   * The refresh-grant body contains `grant_type=refresh_token`, the client id
   * and secret, the given refresh token and the percent-encoded scope.
   */
  lemma RefreshGrantWireFormat(config: OAuthConfig, refreshToken: string)
    ensures RefreshGrantRequest(config, refreshToken).verb == "POST"
    ensures RefreshGrantRequest(config, refreshToken).url == OAuthLogin
    ensures RefreshGrantRequest(config, refreshToken).headers["Content-Type"] == "application/x-www-form-urlencoded"
    ensures var body := RefreshGrantRequest(config, refreshToken).body.text;
      && Contains(body, "grant_type=refresh_token")
      && Contains(body, "client_id=" + config.clientId)
      && Contains(body, "client_secret=" + config.clientSecret)
      && Contains(body, "refresh_token=" + refreshToken)
      && Contains(body, "scope=" + PercentEncoding.Encode(config.scope))
  {
    var pieces := RefreshGrantPieces(config, refreshToken);
    JoinedContainsAll(pieces);
    assert pieces[0] == "grant_type=refresh_token";
    assert pieces[1] == "client_id=" + config.clientId;
    assert pieces[2] == "client_secret=" + config.clientSecret;
    assert pieces[3] == "refresh_token=" + refreshToken;
    assert pieces[4] == "scope=" + PercentEncoding.Encode(config.scope);
  }

  /**
   * A value sent raw, as the refresh token is, is misread by a form reader
   * when it holds `+`: the piece `name=a+b` reads back as the value `a b`.
   */
  lemma RawValueWithPlusMisread(name: string)
    requires PercentEncoding.AllUnreserved(name)
    ensures FormUrlEncoded.DecodePiece(Piece(name, "a+b")) == Some((name, "a b"))
  {
    var raw := "a+b";
    PercentEncoding.EncodeUnreserved(name);
    PercentEncoding.EncodeAlphabet(name);
    assert '=' !in name;
    var piece := Piece(name, raw);
    assert piece == name + ['='] + raw;
    FormUrlEncoded.IndexOfAfter(name, '=', raw);
    assert piece[..|name|] == name && piece[|name| + 1..] == raw;
    PercentEncoding.DecodeEncode(name);
    PercentEncoding.PlusReadsAsSpace();
  }

  lemma LiteralsUnreserved()
    ensures PercentEncoding.AllUnreserved("grant_type") && PercentEncoding.AllUnreserved("password") && PercentEncoding.AllUnreserved("refresh_token")
    ensures PercentEncoding.AllUnreserved("client_id") && PercentEncoding.AllUnreserved("client_secret") && PercentEncoding.AllUnreserved("username") && PercentEncoding.AllUnreserved("scope")
  {
  }

  /** A piece written `name=raw` is the encoded pair when `name` and `raw` need no encoding. */
  lemma RawPiece(name: string, raw: string)
    requires PercentEncoding.AllUnreserved(name) && PercentEncoding.AllUnreserved(raw)
    ensures Piece(name, raw) == FormUrlEncoded.EncodePair((name, raw))
  {
    PercentEncoding.EncodeUnreserved(name);
    PercentEncoding.EncodeUnreserved(raw);
  }

  lemma EncodedPiece(name: string, value: string)
    requires PercentEncoding.AllUnreserved(name)
    ensures Piece(name, PercentEncoding.Encode(value)) == FormUrlEncoded.EncodePair((name, value))
  {
    PercentEncoding.EncodeUnreserved(name);
  }

  lemma PiecesOfPairs(pieces: seq<string>, pairs: seq<FormUrlEncoded.Pair>)
    requires |pieces| == |pairs|
    requires forall i :: 0 <= i < |pairs| ==> pieces[i] == FormUrlEncoded.EncodePair(pairs[i])
    ensures FormUrlEncoded.Join(pieces) == FormUrlEncoded.Encode(pairs)
  {
    assert pieces == FormUrlEncoded.EncodePairs(pairs);
  }

  /**
   * The token endpoint reads the password-grant body back as exactly the
   * six intended fields, with the caller's username and password unchanged.
   */
  lemma PasswordGrantDecodes(config: OAuthConfig, username: string, password: string)
    requires PercentEncoding.AllUnreserved(config.clientId) && PercentEncoding.AllUnreserved(config.clientSecret)
    ensures FormUrlEncoded.Decode(PasswordGrantRequest(config, username, password).body.text)
         == Some([("grant_type", "password"), ("client_id", config.clientId), ("client_secret", config.clientSecret),
                  ("username", username), ("password", password), ("scope", config.scope)])
  {
    var pairs := [("grant_type", "password"), ("client_id", config.clientId), ("client_secret", config.clientSecret),
                  ("username", username), ("password", password), ("scope", config.scope)];
    LiteralsUnreserved();
    var pieces := PasswordGrantPieces(config, username, password);
    forall i | 0 <= i < |pieces| ensures pieces[i] == FormUrlEncoded.EncodePair(pairs[i]) {
      if i == 0 { RawPiece("grant_type", "password"); }
      else if i == 1 { RawPiece("client_id", config.clientId); }
      else if i == 2 { RawPiece("client_secret", config.clientSecret); }
      else if i == 3 { EncodedPiece("username", username); }
      else if i == 4 { EncodedPiece("password", password); }
      else { EncodedPiece("scope", config.scope); }
    }
    PiecesOfPairs(pieces, pairs);
    FormUrlEncoded.DecodeEncode(pairs);
  }

  /** The token endpoint reads the refresh-grant body back as exactly the five intended fields. */
  lemma RefreshGrantDecodes(config: OAuthConfig, refreshToken: string)
    requires PercentEncoding.AllUnreserved(config.clientId) && PercentEncoding.AllUnreserved(config.clientSecret) && PercentEncoding.AllUnreserved(refreshToken)
    ensures FormUrlEncoded.Decode(RefreshGrantRequest(config, refreshToken).body.text)
         == Some([("grant_type", "refresh_token"), ("client_id", config.clientId), ("client_secret", config.clientSecret),
                  ("refresh_token", refreshToken), ("scope", config.scope)])
  {
    var pairs := [("grant_type", "refresh_token"), ("client_id", config.clientId), ("client_secret", config.clientSecret),
                  ("refresh_token", refreshToken), ("scope", config.scope)];
    LiteralsUnreserved();
    var pieces := RefreshGrantPieces(config, refreshToken);
    forall i | 0 <= i < |pieces| ensures pieces[i] == FormUrlEncoded.EncodePair(pairs[i]) {
      if i == 0 { RawPiece("grant_type", "refresh_token"); }
      else if i == 1 { RawPiece("client_id", config.clientId); }
      else if i == 2 { RawPiece("client_secret", config.clientSecret); }
      else if i == 3 { RawPiece("refresh_token", refreshToken); }
      else { EncodedPiece("scope", config.scope); }
    }
    PiecesOfPairs(pieces, pairs);
    FormUrlEncoded.DecodeEncode(pairs);
  }

  // ----------------------------------------------------------------- service

  /**
   * The getters read only the stored session: with no session key both are
   * null, and with a stored JSON object each is that object's field.
   */
  lemma AccessorsReadStoredSession(service: AuthService)
    ensures !service.IsLogged() ==> service.AccessToken() == None && service.RefreshToken() == None
    ensures service.AccessToken().Some? || service.RefreshToken().Some? ==> service.IsLogged()
    ensures service.Session().Some? ==>
              && service.AccessToken() == Lookup(service.Session().value, AccessTokenField)
              && service.RefreshToken() == Lookup(service.Session().value, RefreshTokenField)
  {
  }

  class AuthService {
    /** The browser's key-value storage scope (localStorage). */
    var storage: map<string, Entry>
    const config: OAuthConfig

    /** The service over whatever the storage already holds from earlier visits. */
    constructor (config: OAuthConfig, storage: map<string, Entry>)
      ensures this.config == config && this.storage == storage
    {
      this.config := config;
      this.storage := storage;
    }

    /** The stored session; a value under the key that is not a JSON object reads as no session. */
    function Session(): Option<Fields>
      reads this
    {
      if SessionKey in storage && storage[SessionKey].Record? then Some(storage[SessionKey].fields) else None
    }

    /** isLogged(): only whether the session key is present, so a stored session always counts as logged in. */
    predicate IsLogged()
      reads this
      ensures Session().Some? ==> IsLogged()
    {
      SessionKey in storage
    }

    function SessionField(name: string): Option<string>
      reads this
    {
      match Session()
      case None => None
      case Some(fields) => Lookup(fields, name)
    }

    /** The accessToken getter: the session's `access_token`, or null. */
    function AccessToken(): (r: Option<string>)
      reads this
      ensures r.Some? <==> Session().Some? && AccessTokenField in Session().value
      ensures r.Some? ==> IsLogged() && r.value == Session().value[AccessTokenField]
    {
      SessionField(AccessTokenField)
    }

    /** The refreshToken getter: the session's `refresh_token`, or null. */
    function RefreshToken(): (r: Option<string>)
      reads this
      ensures r.Some? <==> Session().Some? && RefreshTokenField in Session().value
      ensures r.Some? ==> IsLogged() && r.value == Session().value[RefreshTokenField]
    {
      SessionField(RefreshTokenField)
    }

    /** register(user): posts the renamed body and hands the server's answer through; storage is not touched. */
    method Register(user: UserRequest, response: HttpResponse) returns (sent: HttpRequest, result: HttpResponse)
      ensures sent == RegisterRequest(user)
      ensures result == response
    {
      sent := RegisterRequest(user);
      result := response;
    }

    /**
     * loginWithUserCredentials(username, password): posts the password grant;
     * a successful answer is stored verbatim as the session (replacing any
     * earlier one, other keys kept) and handed to the caller; an error leaves
     * storage alone and is handed on.
     */
    method LoginWithUserCredentials(username: string, password: string, response: HttpResponse)
      returns (sent: HttpRequest, result: HttpResponse)
      modifies this
      ensures sent == PasswordGrantRequest(config, username, password)
      ensures result == response
      ensures response.Ok? ==> storage == old(storage)[SessionKey := Record(response.body)]
      ensures response.Failed? ==> storage == old(storage)
      ensures response.Ok? ==> IsLogged() && Session() == Some(response.body)
      ensures response.Ok? ==> AccessToken() == Lookup(response.body, AccessTokenField)
      ensures response.Ok? ==> RefreshToken() == Lookup(response.body, RefreshTokenField)
    {
      sent := PasswordGrantRequest(config, username, password);
      if response.Ok? {
        storage := storage[SessionKey := Record(response.body)];
      }
      result := response;
    }

    /**
     * loginWithRefreshToken(): posts the refresh grant with the stored refresh
     * token; the answer replaces the stored session outright, so no field of
     * the old session survives.
     */
    method LoginWithRefreshToken(response: Fields) returns (sent: HttpRequest, result: Fields)
      requires RefreshToken().Some?
      modifies this
      ensures sent == RefreshGrantRequest(config, old(RefreshToken()).value)
      ensures result == response
      ensures storage == old(storage)[SessionKey := Record(response)]
      ensures IsLogged() && Session() == Some(response)
      ensures forall name :: SessionField(name) == Lookup(response, name)
    {
      sent := RefreshGrantRequest(config, RefreshToken().value);
      storage := storage[SessionKey := Record(response)];
      result := response;
    }

    /** logout(): clears the whole storage scope, not only the session. */
    method Logout()
      modifies this
      ensures storage == map[] && |storage| == 0
      ensures !IsLogged() && AccessToken() == None && RefreshToken() == None
    {
      storage := map[];
    }
  }
}
