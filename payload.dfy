/**
 * The payload tree the plugin resolves, the capabilities the resolution
 * consumes (secret storage, JSON decoding, template evaluation, map
 * iteration order), and the resolution of one marker key.
 */
module Payload {
  import opened Common
  import opened Strings

  /** A decoded JSON value, as `encoding/json` hands it to the plugin. */
  datatype Value =
    | Null
    | Bool(b: bool)
    | Num(n: real)
    | Str(s: string)
    | Arr(items: seq<Value>)
    | Obj(fields: map<string, Value>)

  /** Go's `m[k]` on a `map[string]interface{}`: a missing key reads as nil. */
  function Get(m: map<string, Value>, k: string): Value
  {
    if k in m then m[k] else Null
  }

  /** The substring that makes a key a candidate marker (the test at path_payload.go:227). */
  const MarkerGuard: string := "@/"
  /** The separator between field name and secret path expression. */
  const MarkerSeparator: string := "@/e2e/"

  /** What a secret-storage read returns: an error, no entry, or the stored bytes. */
  datatype Fetch = StoreFault(err: string) | Absent | Found(blob: seq<Byte>)

  /** What JSON decoding of a stored blob into an object returns. */
  datatype Decoding = DecodeFault(err: string) | Decoded(data: map<string, Value>)

  /** What executing a parsed template against decoded data returns. */
  datatype Rendering = ExecFault(err: string) | Rendered(text: string)

  /**
   * The capabilities the walk consumes, all deterministic:
   * `get` is the storage read, `unmarshal` JSON decoding, `parse` template
   * parsing (None when the template text parses, else the error), `execute`
   * template execution, and `order` the key order `MapKeys` yields for a map.
   */
  datatype Env = Env(
    get: string -> Fetch,
    unmarshal: seq<Byte> -> Decoding,
    parse: string -> Option<string>,
    execute: (string, map<string, Value>) -> Rendering,
    order: map<string, Value> -> seq<string>)
  {
    /** `MapKeys` lists every key of the map exactly once. */
    ghost predicate Valid()
    {
      forall m :: IsSnapshot(order(m), m)
    }
  }

  /** `keys` lists the keys of `m`, each exactly once. */
  ghost predicate IsSnapshot(keys: seq<string>, m: map<string, Value>)
  {
    && (forall i, j :: 0 <= i < j < |keys| ==> keys[i] != keys[j])
    && (forall k :: k in keys <==> k in m)
  }

  /** Every message the walk writes back into the payload starts with this. */
  const ErrorPrefix: string := "Error: "
  const ParseFailure: string := ErrorPrefix + "Parsing variable at path (.part) from request"
  const NotFound: string := ErrorPrefix + "path not found"
  const EmptyResult: string := ErrorPrefix + "template interpolation resolved to an empty string"

  /** How the resolution of a marker key ends. */
  datatype Resolution =
    | Resolved(field: string, text: string)  // payload[field] = text, marker deleted
    | Failed(msg: string)                    // payload[key] = msg, error recorded
    | Malformed                              // parts[1] is out of range: Go panics

  /** The text before the first `@/e2e/` of a key that contains it (`parts[0]`). */
  function FieldName(k: string): (f: string)
    requires Contains(k, MarkerSeparator)
    ensures IndexOf(k, MarkerSeparator) == Some(|f|) && f == k[..|f|]
    ensures !Contains(f, MarkerSeparator)
  {
    var i := IndexOf(k, MarkerSeparator).value;
    BeforeFirst(k, MarkerSeparator, i);
    k[..i]
  }

  /** A marker never names itself as its field: the field name is shorter than the key. */
  lemma FieldNameIsNotKey(k: string)
    requires Contains(k, MarkerSeparator)
    ensures FieldName(k) != k
  {
    assert OccursAt(k, MarkerSeparator, |FieldName(k)|);
  }

  /** The secret path expression: the text after the first `@/e2e/` (`parts[1]`). */
  function PathExpr(k: string): (e: string)
    requires Contains(k, MarkerSeparator)
    ensures k == FieldName(k) + MarkerSeparator + e
  {
    var i := |FieldName(k)|;
    assert k == k[..i] + k[i..i + |MarkerSeparator|] + k[i + |MarkerSeparator|..];
    k[i + |MarkerSeparator|..]
  }

  /** The secret path: the path expression up to its first `.` (`secParts[0]`), when it has a `.`. */
  function SecretPath(k: string): (p: Option<string>)
    ensures p.Some? <==> Contains(k, MarkerSeparator) && Contains(PathExpr(k), ".")
    ensures p.Some? ==> IndexOf(PathExpr(k), ".") == Some(|p.value|) && p.value == PathExpr(k)[..|p.value|]
    ensures p.Some? ==> !Contains(p.value, ".")
  {
    if !Contains(k, MarkerSeparator) then None
    else
      var e := PathExpr(k);
      match IndexOf(e, ".")
      case None => None
      case Some(d) => BeforeFirst(e, ".", d); Some(e[..d])
  }

  /** The accessor: the path expression after its first `.` (`secParts[1]`). */
  function Accessor(k: string): (a: string)
    requires SecretPath(k).Some?
    ensures PathExpr(k) == SecretPath(k).value + "." + a
  {
    var e := PathExpr(k);
    var d := |SecretPath(k).value|;
    assert OccursAt(e, ".", d);
    assert e == e[..d] + e[d..d + 1] + e[d + 1..];
    e[d + 1..]
  }

  /** The template `{{.accessor}}` evaluated against the decoded secret. */
  function Template(k: string): string
    requires SecretPath(k).Some?
  {
    "{{" + ("." + Accessor(k)) + "}}"
  }

  /** The messages of the failing steps that carry the underlying error. */
  function StoreMessage(e: string): string { ErrorPrefix + "in storage get request: " + e }
  function DecodeMessage(e: string): string { ErrorPrefix + "unmarshalling json: " + e }
  function ParseMessage(e: string): string { ErrorPrefix + "in template parse: " + e }
  function ExecMessage(e: string): string { ErrorPrefix + "in template execute: " + e }

  /**
   * Resolution of a marker key `k` whose value is `true`: split at the first
   * `@/e2e/` into field name and path expression, split that at its first
   * `.` into secret path and accessor, read and decode the secret, evaluate
   * the template `{{.accessor}}`, and reject an empty rendering.
   */
  function Resolve(env: Env, k: string): (r: Resolution)
    ensures r.Malformed? <==> !Contains(k, MarkerSeparator)
    ensures r.Resolved? ==> r.text != [] && r.field == FieldName(k)
    ensures r.Failed? ==> ErrorPrefix <= r.msg
  {
    match IndexOf(k, MarkerSeparator)
    case None => Malformed
    case Some(i) =>
      var fieldName := k[..i];
      var expr := k[i + |MarkerSeparator|..];
      match IndexOf(expr, ".")
      case None => Failed(ParseFailure)
      case Some(d) =>
        var template := "{{" + ("." + expr[d + 1..]) + "}}";
        match env.get(expr[..d])
        case StoreFault(e) => Failed(StoreMessage(e))
        case Absent => Failed(NotFound)
        case Found(blob) =>
          match env.unmarshal(blob)
          case DecodeFault(e) => Failed(DecodeMessage(e))
          case Decoded(data) =>
            match env.parse(template)
            case Some(e) => Failed(ParseMessage(e))
            case None =>
              match env.execute(template, data)
              case ExecFault(e) => Failed(ExecMessage(e))
              case Rendered(text) =>
                if text == [] then Failed(EmptyResult) else Resolved(fieldName, text)
  }

  /** The decoded secret a marker refers to, when it is stored and decodes. */
  function Secret(env: Env, k: string): (d: Option<map<string, Value>>)
    ensures d.Some? ==> SecretPath(k).Some?
  {
    match SecretPath(k)
    case None => None
    case Some(p) =>
      match env.get(p)
      case Found(blob) => (match env.unmarshal(blob) case Decoded(data) => Some(data) case _ => None)
      case _ => None
  }

  /** Wherever a key contains `@/e2e/` it contains `@/`: every marker passes the guard. */
  lemma SeparatorPassesGuard(k: string)
    requires Contains(k, MarkerSeparator)
    ensures Contains(k, MarkerGuard)
  {
    var i := IndexOf(k, MarkerSeparator).value;
    assert k[i..i + |MarkerGuard|] == k[i..i + |MarkerSeparator|][..|MarkerGuard|];
    assert OccursAt(k, MarkerGuard, i);
  }

  /** The key `field@/e2e/path.accessor`. */
  function MarkerKey(field: string, path: string, accessor: string): string
  {
    field + MarkerSeparator + path + "." + accessor
  }

  /** Splitting `field@/e2e/rest` at its first `@/e2e/` gives back `field` and `rest`. */
  lemma SeparatorSplit(field: string, rest: string)
    requires !Contains(field, MarkerSeparator)
    ensures var k := field + MarkerSeparator + rest;
            Contains(k, MarkerSeparator) && FieldName(k) == field && PathExpr(k) == rest
  {
    var k := field + MarkerSeparator + rest;
    var n := |field|;
    assert k[n..n + |MarkerSeparator|] == MarkerSeparator;
    forall j | 0 <= j < n ensures !OccursAt(k, MarkerSeparator, j) {
      if j + |MarkerSeparator| <= n {
        assert k[j..j + |MarkerSeparator|] == field[j..j + |MarkerSeparator|];
        assert !OccursAt(field, MarkerSeparator, j);
      } else {
        // An occurrence would overlap the separator at `n`, which has no second `@`.
        assert k[j..j + |MarkerSeparator|][n - j] == k[n] == '@';
      }
    }
    IndexOfFirst(k, MarkerSeparator, n);
    assert k[..n] == field;
  }

  /** Splitting `path.accessor` at its first `.` gives back `path` and `accessor`. */
  lemma DotSplit(path: string, accessor: string)
    requires !Contains(path, ".")
    ensures var e := path + "." + accessor;
            IndexOf(e, ".") == Some(|path|) && e[..|path|] == path && e[|path| + 1..] == accessor
  {
    var e := path + "." + accessor;
    assert e[|path|..|path| + 1] == ".";
    forall j | 0 <= j < |path| ensures !OccursAt(e, ".", j) {
      assert e[j..j + 1] == path[j..j + 1];
      assert !OccursAt(path, ".", j);
    }
    IndexOfFirst(e, ".", |path|);
  }

  /**
   * Splitting inverts `MarkerKey` when the field name holds no `@/e2e/` and
   * the path no `.`: the two `SplitN` calls recover exactly those parts.
   */
  lemma MarkerKeyParts(field: string, path: string, accessor: string)
    requires !Contains(field, MarkerSeparator) && !Contains(path, ".")
    ensures var k := MarkerKey(field, path, accessor);
            && Contains(k, MarkerSeparator) && FieldName(k) == field
            && SecretPath(k) == Some(path) && Accessor(k) == accessor
  {
    var rest := path + "." + accessor;
    assert MarkerKey(field, path, accessor) == field + MarkerSeparator + rest;
    SeparatorSplit(field, rest);
    DotSplit(path, accessor);
  }

  /** Conversely, every key with a secret path is the `MarkerKey` of its own parts. */
  lemma MarkerKeyOfParts(k: string)
    requires SecretPath(k).Some?
    ensures k == MarkerKey(FieldName(k), SecretPath(k).value, Accessor(k))
  {
  }

  /**
   * Resolution by parts: the key `field@/e2e/path.accessor` whose secret is
   * stored, decodes, and renders non-empty `text` through `{{.accessor}}`
   * becomes `field -> text`.
   */
  lemma ResolveMarkerKey(env: Env, field: string, path: string, accessor: string,
                         blob: seq<Byte>, data: map<string, Value>, text: string)
    requires !Contains(field, MarkerSeparator) && !Contains(path, ".")
    requires env.get(path) == Found(blob) && env.unmarshal(blob) == Decoded(data)
    requires env.parse("{{" + ("." + accessor) + "}}") == None
    requires env.execute("{{" + ("." + accessor) + "}}", data) == Rendered(text) && text != []
    ensures Resolve(env, MarkerKey(field, path, accessor)) == Resolved(field, text)
  {
    MarkerKeyParts(field, path, accessor);
  }

  /** A path expression without a `.` is reported as a parsing error. */
  lemma ResolveWithoutDot(env: Env, k: string)
    requires Contains(k, MarkerSeparator) && !Contains(PathExpr(k), ".")
    ensures Resolve(env, k) == Failed(ParseFailure)
  {
  }

  /** A storage error is written back with its text. */
  lemma ResolveStoreFault(env: Env, k: string, e: string)
    requires SecretPath(k).Some? && env.get(SecretPath(k).value) == StoreFault(e)
    ensures Resolve(env, k) == Failed(StoreMessage(e))
  {
  }

  /** A marker whose secret path is absent from storage records "path not found". */
  lemma AbsentSecretIsNotFound(env: Env, k: string)
    requires SecretPath(k).Some? && env.get(SecretPath(k).value) == Absent
    ensures Resolve(env, k) == Failed(NotFound)
  {
  }

  /** A stored secret that is not a JSON object is written back with the decoding error. */
  lemma ResolveDecodeFault(env: Env, k: string, blob: seq<Byte>, e: string)
    requires SecretPath(k).Some? && env.get(SecretPath(k).value) == Found(blob)
    requires env.unmarshal(blob) == DecodeFault(e)
    ensures Resolve(env, k) == Failed(DecodeMessage(e))
  {
  }

  /** An accessor that does not parse as a template is written back with the parse error. */
  lemma ResolveParseFault(env: Env, k: string, e: string)
    requires Secret(env, k).Some? && env.parse(Template(k)) == Some(e)
    ensures Resolve(env, k) == Failed(ParseMessage(e))
  {
  }

  /** A template that fails on the secret is written back with the execution error. */
  lemma ResolveExecFault(env: Env, k: string, e: string)
    requires Secret(env, k).Some? && env.parse(Template(k)) == None
    requires env.execute(Template(k), Secret(env, k).value) == ExecFault(e)
    ensures Resolve(env, k) == Failed(ExecMessage(e))
  {
  }

  /** A template that renders the empty string is an error too. */
  lemma ResolveEmpty(env: Env, k: string)
    requires Secret(env, k).Some? && env.parse(Template(k)) == None
    requires env.execute(Template(k), Secret(env, k).value) == Rendered([])
    ensures Resolve(env, k) == Failed(EmptyResult)
  {
  }

  /**
   * A marker resolves to `field -> text` exactly when its secret is stored and
   * decodes, `{{.accessor}}` parses and renders `text` against it, `text` is
   * not empty, and `field` is the text before `@/e2e/`.
   */
  lemma ResolvedExactly(env: Env, k: string, field: string, text: string)
    ensures Resolve(env, k) == Resolved(field, text) <==>
            && Secret(env, k).Some? && env.parse(Template(k)) == None
            && env.execute(Template(k), Secret(env, k).value) == Rendered(text)
            && text != [] && field == FieldName(k)
  {
  }
}
