/** `JedisUtils`: the status check applied to every `OK` reply and the key
    encoder the typed facade methods use. */
module JedisUtils {
  import opened Wrappers
  import opened JavaLang
  import Utf8

  const OkCode: string := "OK"
  const OkMultiCode: string := "+OK"

  /** `isStatusOk(status)`. */
  predicate IsStatusOk(status: JString) {
    status.Some? && (status.value == OkCode || status.value == OkMultiCode)
  }

  /** Exactly the two literal replies count, and null does not. */
  lemma StatusOkExactly(status: JString)
    ensures IsStatusOk(status) <==> status == Some("OK") || status == Some("+OK")
  {
  }

  /** No trimming and no case folding. */
  lemma StatusOkIsLiteral()
    ensures !IsStatusOk(None)
    ensures !IsStatusOk(Some("ok")) && !IsStatusOk(Some(" OK")) && !IsStatusOk(Some("OK\n"))
    ensures !IsStatusOk(Some("QUEUED")) && IsStatusOk(Some("+OK"))
  {
  }

  /** `toBytes(key)`: null stays null, anything else is its UTF-8 encoding. */
  function ToBytes(key: JString): (r: Option<Utf8.Bytes>)
    ensures key.None? <==> r.None?
    ensures key == Some("") ==> r == Some([])
  {
    match key
    case None => None
    case Some(k) => Some(Utf8.Encode(k))
  }

  /** Distinct non-null keys never collide on the wire. */
  lemma ToBytesInjective(a: JString, b: JString)
    requires ToBytes(a) == ToBytes(b)
    ensures a == b
  {
    if a.Some? {
      Utf8.EncodeInjective(a.value, b.value);
    }
  }

  /** An ASCII key becomes one byte per character, each its character code. */
  lemma ToBytesAscii(k: string)
    requires Utf8.IsAscii(k)
    ensures |ToBytes(Some(k)).value| == |k|
    ensures forall i :: 0 <= i < |k| ==> ToBytes(Some(k)).value[i] as int == k[i] as int
  {
    Utf8.EncodeAscii(k);
  }
}
