/**
 * The Python values the recon reports and the scanner's result rows hold,
 * and the shape of the HTTP replies the recon scripts read.
 */
module Py {

  import opened Wrappers

  /**
   * A Python value. The elements of a set are listed in its iteration order;
   * `VObject` is any other object (a datetime, say), known only by an
   * identity; what `str()` gives for it is a parameter of the operations
   * that call `str()`.
   */
  datatype Value =
    | VNone
    | VBool(b: bool)
    | VInt(i: int)
    | VFloat(x: real)
    | VStr(s: string)
    | VList(items: seq<Value>)
    | VTuple(items: seq<Value>)
    | VSet(items: seq<Value>)
    | VDict(entries: seq<(string, Value)>)
    | VObject(id: nat)

  /** `isinstance(v, (list, set, tuple))`. */
  predicate IsCollection(v: Value) {
    v.VList? || v.VTuple? || v.VSet?
  }

  /** `isinstance(v, (str, int, float, bool))` (a bool is an int in Python). */
  predicate IsScalar(v: Value) {
    v.VBool? || v.VInt? || v.VFloat? || v.VStr?
  }

  /**
   * The outcome of an HTTP GET: the request raised (no reply), or a status
   * code and a body, which `r.json()` either decodes or rejects (`None`).
   */
  datatype Reply<T> = NoReply | Reply(status: int, json: Option<T>)

  /**
   * One element of the JSON list crt.sh returns: an object, with or without
   * a string `name_value`, or something without `.get`/`[...]` (the loops
   * raise on it).
   */
  datatype CrtEntry = Record(nameValue: Option<string>) | NotAnObject

  /** One row of the Wayback CDX JSON reply: a list of fields; the first row is the header. */
  type CdxRow = seq<string>
}
