/** The cross-origin policy: the allow-list read from `ALLOWED_ORIGINS` and
    the decision taken for a request's `Origin` header. */
module CorsPolicy {
  import opened JsValues
  import opened JsStrings

  /** An entry the parsed allow-list can hold. */
  predicate IsOriginEntry(o: string)
  {
    o != "" && IsTrimmed(o) && ',' !in o
  }

  /** `(ALLOWED_ORIGINS || '').split(',').map(s => s.trim()).filter(Boolean)`. */
  function ParseAllowedOrigins(env: Option<string>): (origins: seq<string>)
    ensures forall i :: 0 <= i < |origins| ==> IsOriginEntry(origins[i])
  {
    var pieces := Split(OrDefault(env, ""), ',');
    TrimmedPiecesAreEntries(pieces);
    FilterNonEmpty(MapTrim(pieces))
  }

  lemma TrimmedPiecesAreEntries(pieces: seq<string>)
    requires forall i :: 0 <= i < |pieces| ==> ',' !in pieces[i]
    ensures forall i :: 0 <= i < |FilterNonEmpty(MapTrim(pieces))| ==> IsOriginEntry(FilterNonEmpty(MapTrim(pieces))[i])
  {
    var trimmed := MapTrim(pieces);
    var origins := FilterNonEmpty(trimmed);
    forall i | 0 <= i < |origins| ensures IsOriginEntry(origins[i]) {
      var o := origins[i];
      FilterNonEmptyMembers(trimmed, o);
      var k :| 0 <= k < |trimmed| && trimmed[k] == o;
      TrimKeepsAbsent(pieces[k], ',');
    }
  }

  /** Writing a list of entries as a comma-separated value and parsing it
      gives the list back. */
  lemma ParseJoinedOrigins(origins: seq<string>)
    requires forall i :: 0 <= i < |origins| ==> IsOriginEntry(origins[i])
    ensures ParseAllowedOrigins(Some(Join(origins, ','))) == origins
  {
    if origins != [] {
      SplitJoin(origins, ',');
      MapTrimOfTrimmed(origins);
      FilterNonEmptyKeeps(origins);
    }
  }

  /** The entries of the parsed list are exactly the non-empty trimmed pieces
      of the value between commas. */
  lemma ParsedOriginsArePieces(env: Option<string>, o: string)
    ensures o in ParseAllowedOrigins(env) <==> o != "" && exists p :: p in Split(OrDefault(env, ""), ',') && Trim(p) == o
  {
    KeptTrimmedPieces(Split(OrDefault(env, ""), ','), o);
  }

  lemma KeptTrimmedPieces(pieces: seq<string>, o: string)
    ensures o in FilterNonEmpty(MapTrim(pieces)) <==> o != "" && exists p :: p in pieces && Trim(p) == o
  {
    var trimmed := MapTrim(pieces);
    FilterNonEmptyMembers(trimmed, o);
    if o in trimmed {
      var i :| 0 <= i < |trimmed| && trimmed[i] == o;
      assert pieces[i] in pieces && Trim(pieces[i]) == o;
    }
    if exists p :: p in pieces && Trim(p) == o {
      var p :| p in pieces && Trim(p) == o;
      var i :| 0 <= i < |pieces| && pieces[i] == p;
      assert trimmed[i] == o;
    }
  }

  /** The outcome of the `origin` callback of the CORS middleware. */
  datatype CorsDecision = Allow | Deny(message: string)

  const NotAllowedMessage: string := "Not allowed by CORS"

  /** A request without an `Origin` (or with an empty one) is allowed; an
      empty allow-list allows everything; otherwise the origin must be listed. */
  function CheckOrigin(origin: Option<string>, allowed: seq<string>): (d: CorsDecision)
    ensures d == Allow <==> !Truthy(origin) || allowed == [] || origin.value in allowed
    ensures d != Allow ==> d == Deny(NotAllowedMessage)
  {
    if !Truthy(origin) then Allow
    else if |allowed| == 0 || origin.value in allowed then Allow
    else Deny(NotAllowedMessage)
  }

  /** With `ALLOWED_ORIGINS` set to a comma-separated list of entries, a
      request is allowed exactly when it has no origin or its origin is one
      of the entries (or the list is empty); a refusal carries the fixed
      message. */
  lemma OriginPolicy(origins: seq<string>, origin: Option<string>)
    requires forall i :: 0 <= i < |origins| ==> IsOriginEntry(origins[i])
    ensures CheckOrigin(origin, ParseAllowedOrigins(Some(Join(origins, ',')))).Allow?
        <==> !Truthy(origin) || origins == [] || origin.value in origins
    ensures CheckOrigin(origin, ParseAllowedOrigins(Some(Join(origins, ',')))) in {Allow, Deny(NotAllowedMessage)}
  {
    ParseJoinedOrigins(origins);
  }

  /** The pieces of a value made only of commas and whitespace are whitespace. */
  lemma {:induction false} BlankPieces(s: string)
    requires forall i :: 0 <= i < |s| ==> s[i] == ',' || IsJsWhitespace(s[i])
    ensures forall i :: 0 <= i < |Split(s, ',')| ==> AllWhitespace(Split(s, ',')[i])
    decreases |s|
  {
    if s != [] {
      BlankPieces(s[1..]);
    }
  }

  /** Pieces that are all whitespace trim away to nothing. */
  lemma BlankPiecesTrimAway(pieces: seq<string>)
    requires forall i :: 0 <= i < |pieces| ==> AllWhitespace(pieces[i])
    ensures FilterNonEmpty(MapTrim(pieces)) == []
  {
    var trimmed := MapTrim(pieces);
    forall i | 0 <= i < |trimmed| ensures trimmed[i] == "" {
      TrimOfWhitespace(pieces[i]);
    }
    FilterNonEmptyOfEmpties(trimmed);
  }

  /** An unset `ALLOWED_ORIGINS`, or one made only of commas and whitespace,
      yields an empty list, and then every origin is allowed. */
  lemma BlankAllowListAllowsAll(env: Option<string>, origin: Option<string>)
    requires env.Some? ==> forall i :: 0 <= i < |env.value| ==> env.value[i] == ',' || IsJsWhitespace(env.value[i])
    ensures ParseAllowedOrigins(env) == []
    ensures CheckOrigin(origin, ParseAllowedOrigins(env)) == Allow
  {
    BlankPieces(OrDefault(env, ""));
    BlankPiecesTrimAway(Split(OrDefault(env, ""), ','));
  }

  /** When the list is not empty, an allowed origin is absent, empty, or an
      entry of the list; in particular it carries no surrounding whitespace
      and no comma. */
  lemma AllowedOriginIsEntry(env: Option<string>, o: string)
    requires ParseAllowedOrigins(env) != []
    requires CheckOrigin(Some(o), ParseAllowedOrigins(env)) == Allow
    ensures o == "" || (o in ParseAllowedOrigins(env) && IsOriginEntry(o))
  {
  }
}
