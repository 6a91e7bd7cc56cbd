/** The object codec the facade and the cache use for typed values.  Its
    wire format is not modelled: a codec is any pair of functions, and the
    round trip the library promises is a predicate that lemmas assume. */
module Hessian {
  import opened Wrappers
  import Utf8

  type Bytes = Utf8.Bytes

  /** A Java value as far as this code distinguishes values: `null`, a
      `String`, a `byte[]`, a `List`, or any other object. */
  datatype JValue<T> =
    | JNull
    | JString(s: string)
    | JBytes(b: Bytes)
    | JList(items: seq<JValue<T>>)
    | JObject(o: T)

  /** `serialize`; `deserialize`, whose `None` is the exception thrown on
      bytes that are not a serialized value; and `Object.toString` for the
      values that are not strings. */
  datatype Codec<!T> = Codec(
    serialize: JValue<T> -> Bytes,
    deserialize: Bytes -> Option<JValue<T>>,
    describe: JValue<T> -> string)

  /** Deserializing what was serialized gives the value back. */
  ghost predicate Lawful<T(!new)>(c: Codec<T>) {
    forall v :: c.deserialize(c.serialize(v)) == Some(v)
  }

  /** `v.toString()`; `None` is the NullPointerException on `null`. */
  function ToJavaString<T>(c: Codec<T>, v: JValue<T>): (r: Option<string>)
    ensures r.None? <==> v.JNull?
    ensures v.JString? ==> r == Some(v.s)
  {
    match v
    case JNull => None
    case JString(s) => Some(s)
    case _ => Some(c.describe(v))
  }

  /** A lawful codec never maps two values to the same bytes. */
  lemma SerializeInjective<T(!new)>(c: Codec<T>, a: JValue<T>, b: JValue<T>)
    requires Lawful(c) && c.serialize(a) == c.serialize(b)
    ensures a == b
  {
    assert c.deserialize(c.serialize(a)) == Some(a);
    assert c.deserialize(c.serialize(b)) == Some(b);
  }
}
