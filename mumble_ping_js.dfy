/**
 * The codec of the older mumblePing.js.  Its `_readUInt32BE` and
 * `_parseResponseBytes` are the same code as in mumblePing.ts and are the
 * members of MumblePingTs; what differs is that the request body is the
 * digit string '000012345678', turned into bytes by `Uint8Array.from` when
 * it is written, and that the reply goes to the decoder without a null
 * fallback (`ByteArray.fromGBytes` always yields an array).
 */
module MumblePingJs {
  import opened Wrappers
  import opened JsRuntime
  import MumblePingTs

  const MUMBLE_PING_BODY: string := "000012345678"

  /** The number of bytes `pingMumble` asks the socket for. */
  const PING_READ_LEN: nat := 24

  /** The request as written: one byte per digit character, of that digit's value. */
  lemma {:induction false} PingBodyBytes()
    ensures |Uint8ArrayFrom(MUMBLE_PING_BODY)| == 12
    ensures Uint8ArrayFrom(MUMBLE_PING_BODY) == MumblePingTs.MUMBLE_PING_BODY
  {
    var b := Uint8ArrayFrom(MUMBLE_PING_BODY);
    forall i | 0 <= i < 12 ensures b[i] == MumblePingTs.MUMBLE_PING_BODY[i] {
      var c := MUMBLE_PING_BODY[i];
      assert IsDigit(c) && b[i] == (c as int) - ('0' as int);
    }
  }

  /** One `pingMumble` exchange of the JS version, given the bytes the read returned. */
  function PingMumble(reply: seq<Byte>): (x: MumblePingTs.PingExchange)
    ensures x.written == [0, 0, 0, 0, 1, 2, 3, 4, 5, 6, 7, 8]
    ensures x.readLength == 24
    ensures x == MumblePingTs.PingMumble(Some(reply))
  {
    PingBodyBytes();
    MumblePingTs.PingExchange(Uint8ArrayFrom(MUMBLE_PING_BODY), PING_READ_LEN,
                              MumblePingTs.ParseResponse(reply))
  }
}
