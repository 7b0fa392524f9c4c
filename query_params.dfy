/** Query strings: the `URLSearchParams` list that the token request body is
    built in (`set` and `toString`), and a reader that splits a query at `&`
    and `=` and percent-decodes each part, used to state what a serialized
    query carries. */
module QueryParams {
  import opened JsValues
  import opened JsStrings
  import opened PercentEncoding

  /** The name-value list of a `URLSearchParams`, in insertion order. */
  type Params = seq<(string, string)>

  function Names(ps: Params): (names: seq<string>)
    ensures |names| == |ps|
    ensures forall i :: 0 <= i < |ps| ==> names[i] == ps[i].0
  {
    if ps == [] then [] else [ps[0].0] + Names(ps[1..])
  }

  /** The position of the first pair named `name`. */
  function IndexOf(ps: Params, name: string): (k: nat)
    requires name in Names(ps)
    ensures k < |ps| && ps[k].0 == name
    ensures forall j :: 0 <= j < k ==> ps[j].0 != name
  {
    if ps[0].0 == name then 0
    else
      assert Names(ps) == [ps[0].0] + Names(ps[1..]);
      1 + IndexOf(ps[1..], name)
  }

  /** The number of pairs named `name`. */
  function CountName(ps: Params, name: string): nat
  {
    if ps == [] then 0 else (if ps[0].0 == name then 1 else 0) + CountName(ps[1..], name)
  }

  /** The pairs not named `name`, in order. */
  function RemoveName(ps: Params, name: string): (r: Params)
    ensures |r| == |ps| - CountName(ps, name)
  {
    if ps == [] then []
    else if ps[0].0 == name then RemoveName(ps[1..], name)
    else [ps[0]] + RemoveName(ps[1..], name)
  }

  lemma {:induction false} RemoveNameSpec(ps: Params, name: string)
    ensures CountName(RemoveName(ps, name), name) == 0
    ensures forall p :: p in RemoveName(ps, name) <==> p in ps && p.0 != name
  {
    if ps != [] {
      RemoveNameSpec(ps[1..], name);
      assert ps == [ps[0]] + ps[1..];
    }
  }

  /** Removing a name twice removes no more than removing it once. */
  lemma {:induction false} RemoveNameTwice(ps: Params, name: string)
    ensures RemoveName(RemoveName(ps, name), name) == RemoveName(ps, name)
  {
    if ps != [] {
      RemoveNameTwice(ps[1..], name);
    }
  }

  /** `params.set(name, value)`: the first pair named `name` takes the new
      value and the other pairs of that name are removed; without such a
      pair, the new one is appended. */
  function SetParam(ps: Params, name: string, value: string): (r: Params)
    ensures |r| == |ps| - CountName(ps, name) + 1
  {
    if ps == [] then [(name, value)]
    else if ps[0].0 == name then [(name, value)] + RemoveName(ps[1..], name)
    else [ps[0]] + SetParam(ps[1..], name, value)
  }

  /** After `set`, the name occurs exactly once, with the new value, and the
      pairs of every other name are those there were before, in the same
      order and number. */
  lemma {:induction false} SetParamSpec(ps: Params, name: string, value: string)
    ensures CountName(SetParam(ps, name, value), name) == 1
    ensures (name, value) in SetParam(ps, name, value)
    ensures forall p :: p in SetParam(ps, name, value) && p.0 != name <==> p in ps && p.0 != name
    ensures RemoveName(SetParam(ps, name, value), name) == RemoveName(ps, name)
  {
    if ps != [] {
      assert ps == [ps[0]] + ps[1..];
      if ps[0].0 == name {
        RemoveNameSpec(ps[1..], name);
        RemoveNameTwice(ps[1..], name);
      } else {
        SetParamSpec(ps[1..], name, value);
      }
    }
  }

  /** Setting a name the list holds replaces its first pair in place: the
      pairs before it are untouched, the new pair takes its position, and
      the later pairs of that name are dropped. */
  lemma {:induction false} SetParamInPlace(ps: Params, name: string, value: string)
    requires name in Names(ps)
    ensures SetParam(ps, name, value) ==
      ps[..IndexOf(ps, name)] + [(name, value)] + RemoveName(ps[IndexOf(ps, name) + 1..], name)
  {
    var p := (name, value);
    if ps[0].0 == name {
      assert IndexOf(ps, name) == 0;
      assert ps[..0] + [p] == [p];
    } else {
      var rest := ps[1..];
      assert name in Names(rest) by {
        assert Names(ps) == [ps[0].0] + Names(rest);
      }
      var k := IndexOf(rest, name);
      assert IndexOf(ps, name) == k + 1;
      var tail := RemoveName(rest[k + 1..], name);
      assert SetParam(rest, name, value) == rest[..k] + [p] + tail by {
        SetParamInPlace(rest, name, value);
      }
      assert SetParam(ps, name, value) == [ps[0]] + SetParam(rest, name, value);
      SliceOfTail(ps, k);
      ConsRegroup(ps[0], rest[..k], p, tail);
    }
  }

  lemma SliceOfTail<T>(s: seq<T>, k: nat)
    requires k < |s| - 1
    ensures s[..k + 1] == [s[0]] + s[1..][..k]
    ensures s[k + 2..] == s[1..][k + 1..]
  {
  }

  lemma ConsRegroup<T>(x: T, a: seq<T>, m: T, b: seq<T>)
    ensures [x] + (a + [m] + b) == ([x] + a) + [m] + b
  {
  }

  /** Setting a name the list does not hold yet appends the pair. */
  lemma {:induction false} SetParamAppends(ps: Params, name: string, value: string)
    requires name !in Names(ps)
    ensures SetParam(ps, name, value) == ps + [(name, value)]
  {
    if ps != [] {
      assert ps[0].0 == Names(ps)[0];
      assert Names(ps[1..]) == Names(ps)[1..];
      SetParamAppends(ps[1..], name, value);
      assert [ps[0]] + (ps[1..] + [(name, value)]) == ps + [(name, value)];
    }
  }

  /** `name=value`, each side encoded. */
  function SerializePair(flavor: Flavor, p: (string, string)): string
  {
    Encode(flavor, p.0) + "=" + Encode(flavor, p.1)
  }

  function SerializePairs(flavor: Flavor, ps: Params): (segments: seq<string>)
    ensures |segments| == |ps|
    ensures forall i :: 0 <= i < |ps| ==> segments[i] == SerializePair(flavor, ps[i])
  {
    if ps == [] then [] else [SerializePair(flavor, ps[0])] + SerializePairs(flavor, ps[1..])
  }

  /** `params.toString()` (Form), or a query written with `encodeURIComponent` (Component). */
  function Serialize(flavor: Flavor, ps: Params): string
  {
    Join(SerializePairs(flavor, ps), '&')
  }

  /** A two-pair list is written as its two pairs joined by `&`. */
  lemma SerializeTwoPairs(flavor: Flavor, p: (string, string), q: (string, string))
    ensures Serialize(flavor, [p, q]) == SerializePair(flavor, p) + "&" + SerializePair(flavor, q)
  {
    var segments := SerializePairs(flavor, [p, q]);
    assert segments == [SerializePair(flavor, p), SerializePair(flavor, q)];
    assert segments[1..] == [SerializePair(flavor, q)];
    assert Join(segments[1..], '&') == SerializePair(flavor, q);
    assert Join(segments, '&') == SerializePair(flavor, p) + ['&'] + SerializePair(flavor, q);
  }

  /** `s` cut at its first `sep`; without one, `s` and the empty string. */
  function SplitAtFirst(s: string, sep: char): (string, string)
  {
    if s == [] then ("", "")
    else if s[0] == sep then ("", s[1..])
    else
      var (a, b) := SplitAtFirst(s[1..], sep);
      ([s[0]] + a, b)
  }

  lemma {:induction false} SplitAtFirstOf(a: string, b: string, sep: char)
    requires sep !in a
    ensures SplitAtFirst(a + [sep] + b, sep) == (a, b)
  {
    if a != [] {
      assert (a + [sep] + b)[1..] == a[1..] + [sep] + b;
      NotInSlice(a, sep, 1, |a|);
      SplitAtFirstOf(a[1..], b, sep);
      assert [a[0]] + a[1..] == a;
    } else {
      assert a + [sep] + b == [sep] + b;
    }
  }

  /** Reads `&`-separated segments: empty ones are skipped, each other one is
      cut at its first `=` and both sides are decoded. */
  function ParseSegments(flavor: Flavor, segments: seq<string>): Option<Params>
  {
    if segments == [] then Some([])
    else if segments[0] == "" then ParseSegments(flavor, segments[1..])
    else
      var (rawName, rawValue) := SplitAtFirst(segments[0], '=');
      match (Decode(flavor, rawName), Decode(flavor, rawValue), ParseSegments(flavor, segments[1..]))
      case (Some(n), Some(v), Some(rest)) => Some([(n, v)] + rest)
      case _ => None
  }

  function ParseQuery(flavor: Flavor, query: string): Option<Params>
  {
    ParseSegments(flavor, Split(query, '&'))
  }

  /** A reader of this flavour decodes what a writer of that flavour encodes:
      each flavour reads its own output, and a form reader reads
      `encodeURIComponent` output too. */
  predicate ReadsBack(reader: Flavor, writer: Flavor)
  {
    reader == writer || (reader == Form && writer == Component)
  }

  lemma DecodeEncodeAs(reader: Flavor, writer: Flavor, s: string)
    requires ReadsBack(reader, writer)
    ensures Decode(reader, Encode(writer, s)) == Some(s)
  {
    if reader == writer {
      DecodeEncode(writer, s);
    } else {
      FormDecodesComponent(s);
    }
  }

  lemma {:induction false} ParseSerializedSegments(reader: Flavor, writer: Flavor, ps: Params)
    requires ReadsBack(reader, writer)
    ensures ParseSegments(reader, SerializePairs(writer, ps)) == Some(ps)
  {
    if ps != [] {
      var segments := SerializePairs(writer, ps);
      var name, value := ps[0].0, ps[0].1;
      assert segments[0] == Encode(writer, name) + "=" + Encode(writer, value);
      assert segments[0] != "";
      EncodeHasNoDelimiters(writer, name);
      SplitAtFirstOf(Encode(writer, name), Encode(writer, value), '=');
      DecodeEncodeAs(reader, writer, name);
      DecodeEncodeAs(reader, writer, value);
      assert segments[1..] == SerializePairs(writer, ps[1..]);
      ParseSerializedSegments(reader, writer, ps[1..]);
      assert [(name, value)] + ps[1..] == ps;
    }
  }

  /** Reading a serialized list gives the list back: names, values and order. */
  lemma ParseSerialize(reader: Flavor, writer: Flavor, ps: Params)
    requires ReadsBack(reader, writer)
    ensures ParseQuery(reader, Serialize(writer, ps)) == Some(ps)
  {
    var segments := SerializePairs(writer, ps);
    if ps == [] {
      assert Serialize(writer, ps) == "";
    } else {
      forall i | 0 <= i < |segments| ensures '&' !in segments[i] {
        EncodeHasNoDelimiters(writer, ps[i].0);
        EncodeHasNoDelimiters(writer, ps[i].1);
      }
      SplitJoin(segments, '&');
    }
    ParseSerializedSegments(reader, writer, ps);
  }
}
