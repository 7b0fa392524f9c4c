/** `normalizeUser`: the mapping from the claims of an OpenID Connect
    user-info response (section 5.1 of OpenID Connect Core 1.0) to the user
    record the relay returns. Claims are string-valued; a claim is falsy
    when it is absent or empty. */
module UserNormalization {
  import opened JsValues
  import opened JsStrings

  type Claims = map<string, string>

  /** The returned user record. `None` is a field whose value is `undefined`;
      `name` is always a string. */
  datatype NormalizedUser = NormalizedUser(
    sub: Option<string>,
    name: string,
    givenName: Option<string>,
    familyName: Option<string>,
    phoneNumber: Option<string>,
    email: Option<string>,
    picture: Option<string>,
    locale: Option<string>,
    raw: Claims)

  /** A claim that is present and not empty. */
  predicate HasClaim(ui: Claims, key: string)
  {
    key in ui && ui[key] != ""
  }

  /** `[given_name, family_name].filter(Boolean).join(' ')`. */
  function JoinedName(ui: Claims): string
  {
    Join(Present([Get(ui, "given_name"), Get(ui, "family_name")]), ' ')
  }

  /** The joined name is both parts with one space between them, or the one
      part that is there, or empty. */
  lemma JoinedNameCases(ui: Claims)
    ensures HasClaim(ui, "given_name") && HasClaim(ui, "family_name") ==>
      JoinedName(ui) == ui["given_name"] + " " + ui["family_name"]
    ensures HasClaim(ui, "given_name") && !HasClaim(ui, "family_name") ==> JoinedName(ui) == ui["given_name"]
    ensures !HasClaim(ui, "given_name") && HasClaim(ui, "family_name") ==> JoinedName(ui) == ui["family_name"]
    ensures !HasClaim(ui, "given_name") && !HasClaim(ui, "family_name") ==> JoinedName(ui) == ""
  {
    var g, f := Get(ui, "given_name"), Get(ui, "family_name");
    var parts := [g, f];
    assert parts[1..] == [f];
    assert Present([f]) == if Truthy(f) then [f.value] else [];
    var present := Present(parts);
    assert present == (if Truthy(g) then [g.value] else []) + Present([f]);
    if Truthy(g) && Truthy(f) {
      assert present == [g.value, f.value];
      assert Join(present, ' ') == g.value + [' '] + Join([f.value], ' ');
    }
  }

  function NormalizeUser(ui: Claims): (u: NormalizedUser)
    ensures HasClaim(ui, "sub") ==> u.sub == Some(ui["sub"])
    ensures !HasClaim(ui, "sub") ==> u.sub == Get(ui, "id")
    ensures HasClaim(ui, "name") ==> u.name == ui["name"]
    ensures !HasClaim(ui, "name") && HasClaim(ui, "given_name") && HasClaim(ui, "family_name") ==>
      u.name == ui["given_name"] + " " + ui["family_name"]
    ensures !HasClaim(ui, "name") && HasClaim(ui, "given_name") && !HasClaim(ui, "family_name") ==> u.name == ui["given_name"]
    ensures !HasClaim(ui, "name") && !HasClaim(ui, "given_name") && HasClaim(ui, "family_name") ==> u.name == ui["family_name"]
    ensures u.name == "" <==> !HasClaim(ui, "name") && !HasClaim(ui, "given_name") && !HasClaim(ui, "family_name")
    ensures HasClaim(ui, "phone") ==> u.phoneNumber == Some(ui["phone"])
    ensures !HasClaim(ui, "phone") ==> u.phoneNumber == Get(ui, "phone_number")
    ensures u.givenName == Get(ui, "given_name") && u.familyName == Get(ui, "family_name")
    ensures u.email == Get(ui, "email") && u.picture == Get(ui, "picture") && u.locale == Get(ui, "locale")
    ensures u.raw == ui
  {
    JoinedNameCases(ui);
    NormalizedUser(
      sub := Or(Get(ui, "sub"), Get(ui, "id")),
      name := OrDefault(Get(ui, "name"), JoinedName(ui)),
      givenName := Get(ui, "given_name"),
      familyName := Get(ui, "family_name"),
      phoneNumber := Or(Get(ui, "phone"), Get(ui, "phone_number")),
      email := Get(ui, "email"),
      picture := Get(ui, "picture"),
      locale := Get(ui, "locale"),
      raw := ui)
  }
}
