/** The events a reader sends to its handler. */
module JsonEvents {
  import opened Words

  datatype Event =
    | Null
    | Bool(b: bool)
    | Int(i: int)
    | Uint(u: nat)
    | Int64(i64: int)
    | Uint64(u64: nat)
    | Double(text: seq<byte>)  // the double that this text denotes
    | String(str: seq<byte>)
    | StartObject
    | Key(name: seq<byte>)
    | EndObject(members: nat)
    | StartArray
    | EndArray(elements: nat)
}
