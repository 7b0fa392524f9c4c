/** The `GET /auth/oneid/callback` handler: it bridges the identity
    provider's redirect either to the mobile app, by a deep link, or to a
    plain acknowledgement page. */
module Callback {
  import opened JsValues
  import opened JsStrings
  import opened PercentEncoding
  import opened QueryParams

  /** The query parameters the handler reads. */
  datatype CallbackQuery = CallbackQuery(code: Option<string>, state: Option<string>, target: Option<string>)

  datatype CallbackResponse =
    | Redirect(status: int, location: string)
    | PlainText(status: int, text: string)

  /** The scheme used when `APP_SCHEME` is unset or empty. */
  const DefaultScheme: string := "odo.app"

  /** What the deep link has between the scheme and the query. */
  const CallbackPath: string := "://auth/oneid/callback?"

  const Acknowledgement: string := "Code received. You can close this page."

  /** The deep link template: `<scheme>://auth/oneid/callback?code=<enc>&state=<enc>`. */
  function DeepLink(scheme: string, code: string, state: string): string
  {
    scheme + CallbackPath + CallbackQueryString(code, state)
  }

  /** `code=<enc>&state=<enc>`. */
  function CallbackQueryString(code: string, state: string): string
  {
    "code=" + Encode(Component, code) + "&state=" + Encode(Component, state)
  }

  /** A pair whose name has only unescaped characters is written as the name, `=`, and the encoded value. */
  lemma PairOfPlainName(name: string, value: string)
    requires forall i :: 0 <= i < |name| ==> Unescaped(Component, name[i])
    ensures SerializePair(Component, (name, value)) == name + "=" + Encode(Component, value)
  {
    EncodeUnescaped(Component, name);
  }

  lemma Regroup(a: string, b: string, c: string, d: string)
    ensures a + (b + c) + d == a + b + (c + d)
  {
  }

  /** The template, regrouped pair by pair. */
  lemma CallbackQueryByPairs(code: string, state: string)
    ensures CallbackQueryString(code, state) ==
      ("code" + "=" + Encode(Component, code)) + "&" + ("state" + "=" + Encode(Component, state))
  {
    var c, s := Encode(Component, code), Encode(Component, state);
    assert "code" + "=" == "code=";
    assert "state" + "=" == "state=";
    assert "&" + "state=" == "&state=";
    Regroup("code=" + c, "&", "state=", s);
  }

  /** The serialization of the two pairs, written pair by pair. */
  lemma CallbackPairsSerialized(code: string, state: string)
    ensures Serialize(Component, [("code", code), ("state", state)]) ==
      ("code" + "=" + Encode(Component, code)) + "&" + ("state" + "=" + Encode(Component, state))
  {
    PairOfPlainName("code", code);
    PairOfPlainName("state", state);
    SerializeTwoPairs(Component, ("code", code), ("state", state));
  }

  /** The query of the deep link is the two-parameter list written out. */
  lemma CallbackQueryIsSerialized(code: string, state: string)
    ensures CallbackQueryString(code, state) == Serialize(Component, [("code", code), ("state", state)])
  {
    CallbackQueryByPairs(code, state);
    CallbackPairsSerialized(code, state);
  }

  /** The deep link is the scheme, the fixed path, and a query that carries
      exactly two parameters, `code` and `state`, with the given values, read
      back by a `decodeURIComponent` reader and by a form reader alike; the
      query holds no `#`, so the link has no fragment. */
  lemma DeepLinkReadsBack(scheme: string, code: string, state: string)
    ensures |DeepLink(scheme, code, state)| >= |scheme + CallbackPath|
    ensures DeepLink(scheme, code, state)[..|scheme + CallbackPath|] == scheme + CallbackPath
    ensures ParseQuery(Component, DeepLink(scheme, code, state)[|scheme + CallbackPath|..]) == Some([("code", code), ("state", state)])
    ensures ParseQuery(Form, DeepLink(scheme, code, state)[|scheme + CallbackPath|..]) == Some([("code", code), ("state", state)])
    ensures '#' !in DeepLink(scheme, code, state)[|scheme + CallbackPath|..]
    ensures DeepLink(scheme, code, state)[|scheme + CallbackPath|..] == Serialize(Component, [("code", code), ("state", state)])
  {
    var ps := [("code", code), ("state", state)];
    var query := CallbackQueryString(code, state);
    var link := DeepLink(scheme, code, state);
    assert link == (scheme + CallbackPath) + query;
    assert link[|scheme + CallbackPath|..] == query;
    CallbackQueryIsSerialized(code, state);
    ParseSerialize(Component, Component, ps);
    ParseSerialize(Form, Component, ps);
    EncodeHasNoDelimiters(Component, code);
    EncodeHasNoDelimiters(Component, state);
  }

  /** The callback handler. With `target=app` it redirects (302) to the deep
      link built from `APP_SCHEME` (default `odo.app`) and the `code` and
      `state` values, a missing or empty one sent as empty; any other target
      gets the fixed acknowledgement with status 200. The handler never
      rejects a request. */
  function HandleCallback(query: CallbackQuery, appScheme: Option<string>): (r: CallbackResponse)
    ensures r.Redirect? <==> query.target == Some("app")
    ensures r.PlainText? ==> r == PlainText(200, Acknowledgement)
    ensures r.Redirect? ==> r.status == 302
    ensures r.Redirect? ==>
      var scheme := if Truthy(appScheme) then appScheme.value else DefaultScheme;
      && |r.location| >= |scheme + CallbackPath|
      && r.location[..|scheme + CallbackPath|] == scheme + CallbackPath
      && r.location[|scheme + CallbackPath|..] ==
           Serialize(Component, [("code", OrDefault(query.code, "")), ("state", OrDefault(query.state, ""))])
      && '#' !in r.location[|scheme + CallbackPath|..]
      && ParseQuery(Component, r.location[|scheme + CallbackPath|..]) ==
           Some([("code", if Truthy(query.code) then query.code.value else ""),
                 ("state", if Truthy(query.state) then query.state.value else "")])
  {
    if query.target == Some("app") then
      var scheme := OrDefault(appScheme, DefaultScheme);
      var code := OrDefault(query.code, "");
      var state := OrDefault(query.state, "");
      DeepLinkReadsBack(scheme, code, state);
      Redirect(302, DeepLink(scheme, code, state))
    else
      PlainText(200, Acknowledgement)
  }

  /** Values made only of unreserved characters appear in the deep link verbatim. */
  lemma DeepLinkOfUnreserved(scheme: string, code: string, state: string)
    requires forall i :: 0 <= i < |code| ==> Unescaped(Component, code[i])
    requires forall i :: 0 <= i < |state| ==> Unescaped(Component, state[i])
    ensures DeepLink(scheme, code, state) == scheme + CallbackPath + "code=" + code + "&state=" + state
  {
    EncodeUnescaped(Component, code);
    EncodeUnescaped(Component, state);
  }
}
