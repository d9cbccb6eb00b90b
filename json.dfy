/** The booking details payload. JSON text and its parser are outside this
    model: a value is an opaque tree, and a codec is a pair of functions
    standing for `JSON.stringify` and `JSON.parse` (a failed parse is `None`,
    the thrown SyntaxError). */
module Json {
  import opened Sql

  datatype Value =
    | Null
    | Bool(b: bool)
    | Number(n: int)
    | Text(s: string)
    | Array(items: seq<Value>)
    | Object(members: seq<(string, Value)>)

  datatype Codec = Codec(stringify: Value -> string, parse: string -> Option<Value>)

  /** A necessary condition for a value that `JSON.parse` can produce: no
      object repeats a member name (on a repeated name in the text the
      parser keeps only the last). */
  predicate WellFormed(v: Value)
  {
    match v
    case Array(items) => forall i :: 0 <= i < |items| ==> WellFormed(items[i])
    case Object(ms) =>
      && (forall i, j :: 0 <= i < j < |ms| ==> ms[i].0 != ms[j].0)
      && (forall i :: 0 <= i < |ms| ==> WellFormed(ms[i].1))
    case _ => true
  }

  /** What the model relies on of the JSON library: parsing what was
      serialized gives every well-formed value back, serialized text is
      never empty, and `"{}"` is the empty object. */
  ghost predicate Lawful(c: Codec)
  {
    && (forall v :: WellFormed(v) ==> c.parse(c.stringify(v)) == Some(v))
    && (forall v :: c.stringify(v) != "")
    && c.parse("{}") == Some(Object([]))
  }

  /** `JSON.parse(stored || '{}')` on a text column: NULL and the empty
      string both parse as the empty-object text; any other text is parsed
      as stored, and may fail. */
  function ParseStored(stored: Option<string>, c: Codec): Option<Value>
  {
    if stored == None || stored == Some("") then c.parse("{}") else c.parse(stored.value)
  }

  /** Details stored by `JSON.stringify` read back unchanged. */
  lemma StoredRoundTrip(v: Value, c: Codec)
    requires Lawful(c) && WellFormed(v)
    ensures ParseStored(Some(c.stringify(v)), c) == Some(v)
  {
  }

  /** A NULL or empty column reads as the empty object under a lawful codec. */
  lemma MissingReadsEmpty(stored: Option<string>, c: Codec)
    requires Lawful(c)
    requires stored == None || stored == Some("")
    ensures ParseStored(stored, c) == Some(Object([]))
  {
  }
}
