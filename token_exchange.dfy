/** The `POST /api/oneid/token` handler: it exchanges an authorization code
    for tokens at the identity provider (the Access Token Request of section
    4.1.3 of RFC 6749, with the client credentials in the body as section
    2.3.1 allows and the PKCE `code_verifier` of section 4.5 of RFC 7636),
    then optionally fetches the user-info resource with the access token as
    a Bearer credential (section 2.1 of RFC 6750; section 5.3 of OpenID
    Connect Core 1.0), and answers with one JSON response.

    The environment is an explicit input, and so is what each of the two
    upstream calls would answer; the handler returns its response together
    with the list of calls it made. */
module TokenExchange {
  import opened JsValues
  import opened PercentEncoding
  import opened QueryParams
  import opened UserNormalization

  /** The fields of the JSON request body the handler reads. */
  datatype TokenRequest = TokenRequest(code: Option<string>, redirectUri: Option<string>, codeVerifier: Option<string>)

  /** `ONEID_TOKEN_URL`, `ONEID_CLIENT_ID`, `ONEID_CLIENT_SECRET` and
      `ONEID_USERINFO_URL`, read on every request. */
  datatype Env = Env(tokenUrl: Option<string>, clientId: Option<string>, clientSecret: Option<string>, userInfoUrl: Option<string>)

  /** What `response.json()` makes of a body: it throws on text that is not
      JSON; `null` parses, but reading a property of it throws. */
  datatype TokenPayload = PayloadNotJson | PayloadNull | PayloadObject(fields: map<string, Value>)

  /** What the token endpoint answers. */
  datatype TokenReply =
    | TokenFetchThrew                // the request or the reading of the body throws
    | TokenNotOk(text: string)       // a status outside 200-299, with its body text
    | TokenOk(payload: TokenPayload) // a status in 200-299, with its parsed body

  datatype UserInfoPayload = UserInfoNotJson | UserInfoNull | UserInfoClaims(claims: Claims)

  /** What the user-info endpoint answers. */
  datatype UserInfoReply =
    | UserInfoFetchThrew
    | UserInfoNotOk
    | UserInfoOk(payload: UserInfoPayload)

  /** An outbound request. A `TokenPost` sends `form` as its body, written
      out as `Serialize(Form, form)` (`params.toString()`). */
  datatype Call =
    | TokenPost(url: string, contentType: string, form: Params)
    | UserInfoGet(url: string, authorization: string)

  /** The JSON the handler sends. In a `TokenResult`, `None` for `idToken`
      or `expiresIn` is an `undefined` field (left out of the JSON), and
      `None` for `user` is `null`. */
  datatype ResponseBody =
    | ErrorBody(error: string)
    | ErrorWithDetails(error: string, details: string)
    | TokenResult(accessToken: Value, idToken: Option<Value>, expiresIn: Option<Value>, user: Option<NormalizedUser>)

  datatype Response = Response(status: int, body: ResponseBody)

  const MissingInputMessage: string := "code and redirectUri are required"
  const MisconfiguredMessage: string := "Server misconfigured: check env vars"
  const TokenFailedMessage: string := "Token exchange failed"
  const NoAccessTokenMessage: string := "No access_token in response"
  const InternalErrorMessage: string := "Internal error"
  const FormContentType: string := "application/x-www-form-urlencoded"

  const InternalError: Response := Response(500, ErrorBody(InternalErrorMessage))

  predicate HasInput(req: TokenRequest)
  {
    Truthy(req.code) && Truthy(req.redirectUri)
  }

  predicate IsConfigured(env: Env)
  {
    Truthy(env.tokenUrl) && Truthy(env.clientId) && Truthy(env.clientSecret)
  }

  /** The request passes both checks, so the token endpoint is called. */
  predicate Reached(req: TokenRequest, env: Env)
  {
    HasInput(req) && IsConfigured(env)
  }

  /** The fields of the Access Token Request, in the order they are set. */
  function TokenForm(req: TokenRequest, env: Env): Params
    requires Reached(req, env)
  {
    [("grant_type", "authorization_code"),
     ("code", req.code.value),
     ("redirect_uri", req.redirectUri.value),
     ("client_id", env.clientId.value),
     ("client_secret", env.clientSecret.value)]
    + (if Truthy(req.codeVerifier) then [("code_verifier", req.codeVerifier.value)] else [])
  }

  /** The form carries the five required fields in order, then
      `code_verifier` exactly when a non-empty verifier was given; no field
      is sent empty. */
  lemma TokenFormFields(req: TokenRequest, env: Env)
    requires Reached(req, env)
    ensures Names(TokenForm(req, env)) ==
      ["grant_type", "code", "redirect_uri", "client_id", "client_secret"] +
      (if Truthy(req.codeVerifier) then ["code_verifier"] else [])
    ensures TokenForm(req, env)[..5] ==
      [("grant_type", "authorization_code"), ("code", req.code.value), ("redirect_uri", req.redirectUri.value),
       ("client_id", env.clientId.value), ("client_secret", env.clientSecret.value)]
    ensures Truthy(req.codeVerifier) ==> TokenForm(req, env)[5] == ("code_verifier", req.codeVerifier.value)
    ensures forall i :: 0 <= i < |TokenForm(req, env)| ==> TokenForm(req, env)[i].1 != ""
  {
    var form := TokenForm(req, env);
    var names := Names(form);
    assert names[..5] == ["grant_type", "code", "redirect_uri", "client_id", "client_secret"];
  }

  /** The form built the way the handler builds it, one `set` per field. */
  method BuildTokenForm(req: TokenRequest, env: Env) returns (params: Params)
    requires Reached(req, env)
    ensures params == TokenForm(req, env)
  {
    var code, redirectUri := req.code.value, req.redirectUri.value;
    var clientId, clientSecret := env.clientId.value, env.clientSecret.value;
    params := [];
    params := SetParam(params, "grant_type", "authorization_code");
    params := SetParam(params, "code", code);
    assert params == [("grant_type", "authorization_code"), ("code", code)] by {
      SetParamAppends([("grant_type", "authorization_code")], "code", code);
    }
    params := SetParam(params, "redirect_uri", redirectUri);
    assert params == [("grant_type", "authorization_code"), ("code", code), ("redirect_uri", redirectUri)] by {
      SetParamAppends([("grant_type", "authorization_code"), ("code", code)], "redirect_uri", redirectUri);
    }
    params := SetParam(params, "client_id", clientId);
    assert params == [("grant_type", "authorization_code"), ("code", code), ("redirect_uri", redirectUri),
                      ("client_id", clientId)] by {
      var before := [("grant_type", "authorization_code"), ("code", code), ("redirect_uri", redirectUri)];
      assert Names(before) == ["grant_type", "code", "redirect_uri"];
      SetParamAppends(before, "client_id", clientId);
    }
    params := SetParam(params, "client_secret", clientSecret);
    assert params == [("grant_type", "authorization_code"), ("code", code), ("redirect_uri", redirectUri),
                      ("client_id", clientId), ("client_secret", clientSecret)] by {
      var before := [("grant_type", "authorization_code"), ("code", code), ("redirect_uri", redirectUri),
                     ("client_id", clientId)];
      assert Names(before) == ["grant_type", "code", "redirect_uri", "client_id"];
      SetParamAppends(before, "client_secret", clientSecret);
    }
    if Truthy(req.codeVerifier) {
      var verifier := req.codeVerifier.value;
      var before := params;
      params := SetParam(params, "code_verifier", verifier);
      assert params == before + [("code_verifier", verifier)] by {
        assert Names(before) == ["grant_type", "code", "redirect_uri", "client_id", "client_secret"];
        assert "code_verifier"[1] != "client_secret"[1];
        SetParamAppends(before, "code_verifier", verifier);
      }
    }
  }

  /** The body of the token request reads back as exactly the token form. */
  lemma TokenBodyReadsBack(req: TokenRequest, env: Env)
    requires Reached(req, env)
    ensures ParseQuery(Form, Serialize(Form, TokenForm(req, env))) == Some(TokenForm(req, env))
  {
    ParseSerialize(Form, Form, TokenForm(req, env));
  }

  /** The handler's `await` of the token response, or the reading of a
      property of its body, throws. */
  predicate TokenThrows(reply: TokenReply)
  {
    reply.TokenFetchThrew? || reply == TokenOk(PayloadNotJson) || reply == TokenOk(PayloadNull)
  }

  /** The token endpoint answered 2xx with a JSON object. */
  predicate TokenParsed(reply: TokenReply)
  {
    reply.TokenOk? && reply.payload.PayloadObject?
  }

  /** The token endpoint granted a (truthy) access token. */
  predicate GrantsToken(reply: TokenReply)
  {
    TokenParsed(reply) && TruthyValue(Get(reply.payload.fields, "access_token"))
  }

  function GrantedToken(reply: TokenReply): Value
    requires GrantsToken(reply)
  {
    Get(reply.payload.fields, "access_token").value
  }

  /** The `Authorization` header of the user-info request. */
  function BearerHeader(accessToken: Value): (header: string)
    ensures TruthyValue(Some(accessToken)) ==> |header| > |"Bearer "|
  {
    "Bearer " + ToJsString(accessToken)
  }

  /** A string token is sent as `Bearer ` followed by the token itself. */
  lemma BearerHeaderOfString(t: string)
    ensures BearerHeader(Str(t))[..|"Bearer "|] == "Bearer "
    ensures BearerHeader(Str(t))[|"Bearer "|..] == t
  {
  }

  /** The user-info `await`, or `normalizeUser` on a `null` body, throws. */
  predicate UserInfoThrows(reply: UserInfoReply)
  {
    reply.UserInfoFetchThrew? || reply == UserInfoOk(UserInfoNotJson) || reply == UserInfoOk(UserInfoNull)
  }

  /** The handler. The checks run in order: the request body, the
      configuration, the token call and its status, the access token, then
      the optional user-info call. Every exception ends in the generic 500. */
  method ExchangeToken(req: TokenRequest, env: Env, tokenReply: TokenReply, userInfoReply: UserInfoReply)
    returns (resp: Response, calls: seq<Call>)
    // Validation and configuration errors are answered before any call.
    ensures !HasInput(req) ==> resp == Response(400, ErrorBody(MissingInputMessage)) && calls == []
    ensures HasInput(req) && !IsConfigured(env) ==> resp == Response(500, ErrorBody(MisconfiguredMessage)) && calls == []
    ensures calls != [] <==> Reached(req, env)
    ensures calls != [] ==> |calls| <= 2 && calls[0] == TokenPost(env.tokenUrl.value, FormContentType, TokenForm(req, env))
    // The token response; none of its failures reaches the user-info call.
    ensures Reached(req, env) && TokenThrows(tokenReply) ==> resp == InternalError && |calls| == 1
    ensures Reached(req, env) && tokenReply.TokenNotOk? ==>
      resp == Response(502, ErrorWithDetails(TokenFailedMessage, tokenReply.text)) && |calls| == 1
    ensures Reached(req, env) && TokenParsed(tokenReply) && !GrantsToken(tokenReply) ==>
      resp == Response(502, ErrorBody(NoAccessTokenMessage)) && |calls| == 1
    // The user-info call: made exactly when a token was granted and its URL is set.
    ensures |calls| == 2 <==> Reached(req, env) && GrantsToken(tokenReply) && Truthy(env.userInfoUrl)
    ensures |calls| == 2 ==> calls[1] == UserInfoGet(env.userInfoUrl.value, BearerHeader(GrantedToken(tokenReply)))
    ensures |calls| == 2 && UserInfoThrows(userInfoReply) ==> resp == InternalError
    // Success.
    ensures resp.status == 200 <==>
      Reached(req, env) && GrantsToken(tokenReply) && !(Truthy(env.userInfoUrl) && UserInfoThrows(userInfoReply))
    ensures resp.status == 200 ==>
      && resp.body.TokenResult?
      && resp.body.accessToken == GrantedToken(tokenReply)
      && resp.body.idToken == Get(tokenReply.payload.fields, "id_token")
      && resp.body.expiresIn == Get(tokenReply.payload.fields, "expires_in")
    ensures resp.status == 200 ==>
      (resp.body.user.None? <==> !Truthy(env.userInfoUrl) || userInfoReply.UserInfoNotOk?)
    ensures resp.status == 200 && resp.body.user.Some? ==>
      userInfoReply.UserInfoOk? && userInfoReply.payload.UserInfoClaims? &&
      resp.body.user.value == NormalizeUser(userInfoReply.payload.claims)
    ensures resp.status in {200, 400, 500, 502}
  {
    if !Truthy(req.code) || !Truthy(req.redirectUri) {
      return Response(400, ErrorBody(MissingInputMessage)), [];
    }
    if !Truthy(env.tokenUrl) || !Truthy(env.clientId) || !Truthy(env.clientSecret) {
      return Response(500, ErrorBody(MisconfiguredMessage)), [];
    }

    var params := BuildTokenForm(req, env);
    calls := [TokenPost(env.tokenUrl.value, FormContentType, params)];
    if tokenReply.TokenFetchThrew? {
      return InternalError, calls;
    }
    if tokenReply.TokenNotOk? {
      return Response(502, ErrorWithDetails(TokenFailedMessage, tokenReply.text)), calls;
    }
    if !tokenReply.payload.PayloadObject? {
      return InternalError, calls;
    }
    var tokenJson := tokenReply.payload.fields;
    var accessToken := Get(tokenJson, "access_token");
    var idToken := Get(tokenJson, "id_token");
    var expiresIn := Get(tokenJson, "expires_in");
    if !TruthyValue(accessToken) {
      return Response(502, ErrorBody(NoAccessTokenMessage)), calls;
    }

    var user: Option<NormalizedUser> := None;
    var userInfoUrl := env.userInfoUrl;
    if Truthy(userInfoUrl) {
      calls := calls + [UserInfoGet(userInfoUrl.value, BearerHeader(accessToken.value))];
      if userInfoReply.UserInfoFetchThrew? {
        return InternalError, calls;
      }
      if userInfoReply.UserInfoOk? {
        if !userInfoReply.payload.UserInfoClaims? {
          return InternalError, calls;
        }
        user := Some(NormalizeUser(userInfoReply.payload.claims));
      }
    }
    return Response(200, TokenResult(accessToken.value, idToken, expiresIn, user)), calls;
  }

  /** The same request against the same upstream answers gets the same
      response and makes the same calls: the handler keeps no state between
      requests. */
  method ExchangeTokenTwice(req: TokenRequest, env: Env, tokenReply: TokenReply, userInfoReply: UserInfoReply)
    returns (first: Response, second: Response, firstCalls: seq<Call>, secondCalls: seq<Call>)
    ensures first == second && firstCalls == secondCalls
  {
    first, firstCalls := ExchangeToken(req, env, tokenReply, userInfoReply);
    second, secondCalls := ExchangeToken(req, env, tokenReply, userInfoReply);
  }
}
