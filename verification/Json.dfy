/** JSON values as the providers return them, and the outcome of one HTTP request for one. */
module Json {
  import opened Wrappers

  datatype Value =
    | Null
    | Bool(b: bool)
    | Number(n: real)
    | Text(s: string)
    | Array(items: seq<Value>)
    | Object(fields: Fields)

  type Fields = map<string, Value>

  /** A request that failed to complete, or a reply with its status and its body if that is JSON. */
  datatype Outcome = TransportError | Reply(status: nat, body: Option<Value>)

  function Field(fields: Fields, name: string): (value: Option<Value>)
    ensures value.Some? <==> name in fields
    ensures value.Some? ==> value.value == fields[name]
  {
    if name in fields then Some(fields[name]) else None
  }

  /** The field when it is a string. */
  function TextField(fields: Fields, name: string): (text: Option<string>)
    ensures text.Some? ==> name in fields && fields[name] == Text(text.value)
    ensures text.None? ==> name !in fields || !fields[name].Text?
  {
    if name in fields && fields[name].Text? then Some(fields[name].s) else None
  }

  function Strings(items: seq<Value>): seq<string>
  {
    if items == [] then []
    else if items[0].Text? then [items[0].s] + Strings(items[1..])
    else Strings(items[1..])
  }

  /** `_str_list`: the string items of a list, nothing of anything else. */
  function StrList(value: Option<Value>): seq<string>
  {
    match value
    case Some(Array(items)) => Strings(items)
    case _ => []
  }

  /** Exactly the string items are kept. */
  lemma {:induction false} InStrings(items: seq<Value>, s: string)
    ensures s in Strings(items) <==> Text(s) in items
  {
    if items != [] {
      InStrings(items[1..], s);
      assert items[0] in items && forall v :: v in items <==> v == items[0] || v in items[1..];
    }
  }
}
