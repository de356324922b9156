/**
 * Shared value types of the chat system: optional values, results, the
 * identifiers of the relational store and the few JavaScript values whose
 * truthiness the handlers test.
 */
module Common {

  datatype Option<T> = None | Some(value: T)

  /** A value or an error message, as a rejected promise or a thrown exception carries it. */
  datatype Result<T> = Ok(value: T) | Err(error: string)

  /** Errors the relational store can raise for a write. */
  datatype StoreError =
    | DuplicateEntry           // MySQL ER_DUP_ENTRY: a unique key would be repeated
    | StoreFailure(reason: string)

  /** The `code` MySQL gives a duplicate-key error, and the message of any other store error. */
  const DupEntryCode: string := "ER_DUP_ENTRY"

  function ErrorMessage(e: StoreError): (m: string)
    ensures m == DupEntryCode <==> e.DuplicateEntry? || e.reason == DupEntryCode
  {
    match e
    case DuplicateEntry => DupEntryCode
    case StoreFailure(reason) => reason
  }

  type UserId = int
  type ConvId = int
  type MsgId = int
  /** Milliseconds since the epoch; every clock reading is passed in. */
  type Time = int

  /** The JavaScript values a socket event or a request body field can carry. */
  datatype JsValue =
    | JsUndefined
    | JsNull
    | JsBool(b: bool)
    | JsNumber(n: int)
    | JsNaN
    | JsString(s: string)

  /** JavaScript truthiness: false, 0, NaN, "", null and undefined are falsy. */
  predicate Truthy(v: JsValue)
  {
    match v
    case JsUndefined => false
    case JsNull => false
    case JsBool(b) => b
    case JsNumber(n) => n != 0
    case JsNaN => false
    case JsString(s) => s != ""
  }

  /** `a || b` on two optional strings: the first one unless it is missing or empty. */
  function OrElse(a: Option<string>, b: string): (r: string)
    ensures a.Some? && a.value != "" ==> r == a.value
    ensures (a.None? || a.value == "") ==> r == b
  {
    if a.Some? && a.value != "" then a.value else b
  }

  predicate NoDuplicates<T(==)>(s: seq<T>)
  {
    forall i, j :: 0 <= i < j < |s| ==> s[i] != s[j]
  }

  /** The elements of s other than x, in order. */
  function RemoveAll<T(==,!new)>(s: seq<T>, x: T): (r: seq<T>)
    ensures |r| <= |s|
    ensures forall y :: y in r <==> y in s && y != x
  {
    if s == [] then []
    else (if s[0] == x then [] else [s[0]]) + RemoveAll(s[1..], x)
  }

  /** The first occurrence of every element of s, in order (SQL DISTINCT, Java `Stream.distinct`). */
  function Distinct<T(==,!new)>(s: seq<T>): (r: seq<T>)
    ensures forall x :: x in r <==> x in s
    ensures NoDuplicates(r)
    ensures |r| <= |s|
    decreases |s|
  {
    if s == [] then []
    else
      var rest := Distinct(RemoveAll(s[1..], s[0]));
      assert s[0] !in rest;
      [s[0]] + rest
  }
}
