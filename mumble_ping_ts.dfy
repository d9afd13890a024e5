/**
 * The Mumble UDP ping codec of mumblePing.ts: the fixed 12-byte request, the
 * 24-byte read of the reply and the decoding of that reply.  The decoding
 * never fails: there is no length check, an element past the end of the
 * buffer reads as `undefined`, which `<<` turns into 0 and `Number` into NaN.
 */
module MumblePingTs {
  import opened Wrappers
  import opened JsRuntime

  /** The ping request: four zero bytes, then the eight identification bytes. */
  const MUMBLE_PING_BODY: seq<Byte> := [0, 0, 0, 0, 1, 2, 3, 4, 5, 6, 7, 8]

  /** The number of bytes requested from the socket for the reply. */
  const MUMBLE_PING_RESPONSE_LEN: nat := 24

  /** `MumblePingResult`: `version` and `bandwidth` are optional members. */
  datatype MumblePingResult =
    MumblePingResult(version: Option<string>, users: int, maxUsers: int, bandwidth: Option<int>)

  // ----- _readUInt32BE -----

  /** The octet that `bytes[i] << shift` works on: a missing element counts as 0. */
  function Octet(bytes: seq<Byte>, i: int): Byte
  {
    if 0 <= i < |bytes| then bytes[i] else 0
  }

  /** The unsigned big-endian value of the four octets at k .. k + 3. */
  function BigEndian(bytes: seq<Byte>, k: int): nat
  {
    Octet(bytes, k) * 16777216 + Octet(bytes, k + 1) * 65536 + Octet(bytes, k + 2) * 256 + Octet(bytes, k + 3)
  }

  /**
   * What `_readUInt32BE` returns: the big-endian value, less 2^32 when the
   * first octet has its top bit set (`b << 24` is a signed 32-bit result).
   */
  function Int32BE(bytes: seq<Byte>, k: int): int
  {
    BigEndian(bytes, k) - (if Octet(bytes, k) >= 128 then TWO_32 else 0)
  }

  /** The j-th summand of `_readUInt32BE` (j = 0 .. 3), as an octet times its weight. */
  function Summand(bytes: seq<Byte>, k: int, j: nat): int
    requires j < 4
  {
    if j == 0 then Octet(bytes, k) * 16777216 - (if Octet(bytes, k) >= 128 then TWO_32 else 0)
    else if j == 1 then Octet(bytes, k + 1) * 65536
    else if j == 2 then Octet(bytes, k + 2) * 256
    else Octet(bytes, k + 3)
  }

  /** The sum the loop of `_readUInt32BE` holds after its first n rounds. */
  ghost function Accumulated(bytes: seq<Byte>, k: int, n: nat): int
    requires n <= 4
  {
    if n == 0 then 0 else Accumulated(bytes, k, n - 1) + Summand(bytes, k, n - 1)
  }

  /** Round j of the loop adds `bytes[k + j] << (24 - 8 * j)`, which is the j-th summand. */
  lemma ShiftedElementIsSummand(bytes: seq<Byte>, k: int, j: nat)
    requires j < 4
    ensures ShiftLeft(ToNumber(ElementAt(bytes, k + j)), 24 - 8 * j) == Summand(bytes, k, j)
  {
    var e := ElementAt(bytes, k + j);
    assert Octet(bytes, k + j) == if e.Some? then e.value else 0;
    ShiftLeftOctet(e, 24 - 8 * j);
  }

  lemma AccumulatedAll(bytes: seq<Byte>, k: int)
    ensures Accumulated(bytes, k, 4) == Int32BE(bytes, k)
  {
    assert Accumulated(bytes, k, 1) == Summand(bytes, k, 0);
    assert Accumulated(bytes, k, 2) == Summand(bytes, k, 0) + Summand(bytes, k, 1);
    assert Accumulated(bytes, k, 3) == Summand(bytes, k, 0) + Summand(bytes, k, 1) + Summand(bytes, k, 2);
  }

  /** `_readUInt32BE`: adds up `bytes[i] << shift` for i = k .. k + 3, shift = 24, 16, 8, 0. */
  method ReadUInt32BE(bytes: seq<Byte>, startPosition: int) returns (result: int)
    ensures result == Int32BE(bytes, startPosition)
  {
    result := 0;
    var shift := 24;
    var i := startPosition;
    while i < startPosition + 4
      invariant startPosition <= i <= startPosition + 4
      invariant shift == 24 - 8 * (i - startPosition)
      invariant result == Accumulated(bytes, startPosition, i - startPosition)
    {
      ShiftedElementIsSummand(bytes, startPosition, i - startPosition);
      result := result + ShiftLeft(ToNumber(ElementAt(bytes, i)), shift);
      shift := shift - 8;
      i := i + 1;
    }
    AccumulatedAll(bytes, startPosition);
  }

  /** The result is ToInt32 of the unsigned big-endian value: the two's-complement reading. */
  lemma Int32BEIsTwosComplement(bytes: seq<Byte>, k: int)
    ensures Int32BE(bytes, k) == ToInt32(Finite(BigEndian(bytes, k)))
    ensures -TWO_31 <= Int32BE(bytes, k) < TWO_31
    ensures Int32BE(bytes, k) < 0 <==> Octet(bytes, k) >= 128
  {
    ToInt32OfWord(BigEndian(bytes, k));
  }

  /** Four big-endian octets of a 32-bit word. */
  function EncodeUInt32BE(v: nat): (r: seq<Byte>)
    requires v < TWO_32
    ensures |r| == 4
  {
    [v / 16777216, (v / 65536) % 256, (v / 256) % 256, v % 256]
  }

  /**
   * Writing a word as four big-endian octets and reading it back yields the
   * word itself when it is below 2^31, and the word less 2^32 otherwise.
   */
  lemma Int32BERoundTrip(bytes: seq<Byte>, k: nat, v: nat)
    requires v < TWO_32 && k + 4 <= |bytes|
    requires bytes[k..k + 4] == EncodeUInt32BE(v)
    ensures Int32BE(bytes, k) == if v < TWO_31 then v else v - TWO_32
  {
    var w := EncodeUInt32BE(v);
    assert Octet(bytes, k) == w[0] && Octet(bytes, k + 1) == w[1];
    assert Octet(bytes, k + 2) == w[2] && Octet(bytes, k + 3) == w[3];
    assert BigEndian(bytes, k) == v by {
      WordOctets(v);
    }
    assert Octet(bytes, k) >= 128 <==> v >= TWO_31 by {
      WordOctets(v);
    }
  }

  /** The four octets of EncodeUInt32BE put back together give the word. */
  lemma WordOctets(v: nat)
    requires v < TWO_32
    ensures var w := EncodeUInt32BE(v);
      (w[0] as int) * 16777216 + (w[1] as int) * 65536 + (w[2] as int) * 256 + w[3] == v &&
      (w[0] >= 128 <==> v >= TWO_31)
  {
    var a := v / 256;
    var b := a / 256;
    var c := b / 256;
    assert v == a * 256 + v % 256;
    assert a == b * 256 + a % 256;
    assert b == c * 256 + b % 256;
    assert v == c * 16777216 + (b % 256) * 65536 + (a % 256) * 256 + v % 256;
    assert v / 65536 == b;
    assert v / 16777216 == c;
  }

  // ----- _parseResponseBytes -----

  /** `Number(responseBytes[i])`. */
  function VersionPart(bytes: seq<Byte>, i: int): JsNumber
  {
    ToNumber(ElementAt(bytes, i))
  }

  /** The version string: reply bytes 1, 2 and 3 in decimal, separated by dots. */
  function VersionString(bytes: seq<Byte>): string
  {
    NumberToString(VersionPart(bytes, 1)) + "." + NumberToString(VersionPart(bytes, 2)) + "."
      + NumberToString(VersionPart(bytes, 3))
  }

  /** The decoded reply: version from bytes 1 .. 3, the counters at offsets 12, 16 and 20. */
  function ParseResponse(bytes: seq<Byte>): MumblePingResult
  {
    MumblePingResult(Some(VersionString(bytes)), Int32BE(bytes, 12), Int32BE(bytes, 16),
                     Some(Int32BE(bytes, 20)))
  }

  lemma JoinThree(x: JsNumber, y: JsNumber, z: JsNumber)
    ensures ArrayJoin([x, y, z], ".") == NumberToString(x) + "." + NumberToString(y) + "." + NumberToString(z)
  {
    assert [x, y, z][..2] == [x, y];
    assert [x, y][..1] == [x];
    assert ArrayJoin([x], ".") == NumberToString(x);
    assert ArrayJoin([x, y], ".") == NumberToString(x) + "." + NumberToString(y);
  }

  /** `_parseResponseBytes`: collects bytes 1 .. 3 in a loop, joins them, reads three words. */
  method ParseResponseBytes(responseBytes: seq<Byte>) returns (result: MumblePingResult)
    ensures result == ParseResponse(responseBytes)
  {
    var version: seq<JsNumber> := [];
    var i := 1;
    while i < 4
      invariant 1 <= i <= 4
      invariant |version| == i - 1
      invariant forall j :: 0 <= j < |version| ==> version[j] == VersionPart(responseBytes, j + 1)
    {
      version := version + [ToNumber(ElementAt(responseBytes, i))];
      i := i + 1;
    }
    assert version == [VersionPart(responseBytes, 1), VersionPart(responseBytes, 2), VersionPart(responseBytes, 3)];
    JoinThree(VersionPart(responseBytes, 1), VersionPart(responseBytes, 2), VersionPart(responseBytes, 3));
    var versionStr := ArrayJoin(version, ".");
    var numUsersConnected := ReadUInt32BE(responseBytes, 12);
    var numMaxUsers := ReadUInt32BE(responseBytes, 16);
    var bandwidth := ReadUInt32BE(responseBytes, 20);
    result := MumblePingResult(Some(versionStr), numUsersConnected, numMaxUsers, Some(bandwidth));
  }

  /** The reply handed to the decoder: `get_data() || Uint8Array.from([])`. */
  function ReplyBytes(data: Option<seq<Byte>>): seq<Byte>
  {
    match data
    case Some(b) => b
    case None => []
  }

  /**
   * One `pingMumble` exchange on an open connection: the bytes written, the
   * number of bytes asked for, and the result decoded from what the read
   * returned (`data` is `get_data()`, None when it is null).
   */
  datatype PingExchange = PingExchange(written: seq<Byte>, readLength: nat, result: MumblePingResult)

  function PingMumble(data: Option<seq<Byte>>): (x: PingExchange)
    ensures x.written == [0, 0, 0, 0, 1, 2, 3, 4, 5, 6, 7, 8]
    ensures x.readLength == 24
    ensures x.result.version.Some? && x.result.bandwidth.Some?
    ensures -TWO_31 <= x.result.users < TWO_31 && -TWO_31 <= x.result.maxUsers < TWO_31
    ensures -TWO_31 <= x.result.bandwidth.value < TWO_31
    ensures data.Some? && |data.value| >= 4 ==>
              x.result.version == Some(Dotted(data.value[1], data.value[2], data.value[3]))
    ensures data.None? ==> x.result == MumblePingResult(Some("NaN.NaN.NaN"), 0, 0, Some(0))
  {
    DecodeIsTotal(ReplyBytes(data));
    EmptyReplyDecoded();
    PingExchange(MUMBLE_PING_BODY, MUMBLE_PING_RESPONSE_LEN, ParseResponse(ReplyBytes(data)))
  }

  // ----- properties of the decoder -----

  /**
   * Only bytes 1 .. 3 and 12 .. 23 matter: two replies that agree there
   * decode alike, whatever byte 0, bytes 4 .. 11 or anything past 23 hold.
   */
  lemma ParseReadsOnlyItsOffsets(a: seq<Byte>, b: seq<Byte>)
    requires forall i :: 1 <= i < 4 || 12 <= i < 24 ==> ElementAt(a, i) == ElementAt(b, i)
    ensures ParseResponse(a) == ParseResponse(b)
  {
    assert VersionPart(a, 1) == VersionPart(b, 1);
    assert VersionPart(a, 2) == VersionPart(b, 2);
    assert VersionPart(a, 3) == VersionPart(b, 3);
    forall i | 12 <= i < 24 ensures Octet(a, i) == Octet(b, i) {
      assert ElementAt(a, i) == ElementAt(b, i);
    }
  }

  function Zeros(n: nat): seq<Byte>
  {
    seq(n, _ => 0)
  }

  /**
   * No length check: a reply of 4 to 23 bytes decodes as if it had been
   * padded with zero bytes to 24, and bytes past the 24th are ignored.
   */
  lemma ShortReplyReadsAsZeroPadded(b: seq<Byte>)
    requires 4 <= |b|
    ensures |b| < 24 ==> ParseResponse(b) == ParseResponse(b + Zeros(24 - |b|))
    ensures |b| > 24 ==> ParseResponse(b) == ParseResponse(b[..24])
  {
    if |b| < 24 {
      var p := b + Zeros(24 - |b|);
      forall i | 1 <= i < 4 || 12 <= i < 24 ensures ElementAt(b, i) == ElementAt(p, i) || (i >= |b| && Octet(b, i) == Octet(p, i)) {
      }
      assert VersionPart(b, 1) == VersionPart(p, 1);
      assert VersionPart(b, 2) == VersionPart(p, 2);
      assert VersionPart(b, 3) == VersionPart(p, 3);
      forall i | 12 <= i < 24 ensures Octet(b, i) == Octet(p, i) { }
    } else if |b| > 24 {
      ParseReadsOnlyItsOffsets(b, b[..24]);
    }
  }

  /** A reply of at most 12 bytes (in particular a null one) reports 0 users of 0. */
  lemma ShortReplyReportsNoUsers(b: seq<Byte>)
    requires |b| <= 12
    ensures ParseResponse(b).users == 0 && ParseResponse(b).maxUsers == 0
    ensures ParseResponse(b).bandwidth == Some(0)
  {
  }

  /** What an empty reply decodes to: every version byte is NaN and every counter 0. */
  lemma EmptyReplyDecoded()
    ensures ParseResponse([]) == MumblePingResult(Some("NaN.NaN.NaN"), 0, 0, Some(0))
  {
    assert VersionPart([], 1) == NaN && VersionPart([], 2) == NaN && VersionPart([], 3) == NaN;
    assert VersionString([]) == "NaN" + "." + "NaN" + "." + "NaN";
    assert "NaN" + "." + "NaN" + "." + "NaN" == "NaN.NaN.NaN";
    assert Int32BE([], 12) == 0 && Int32BE([], 16) == 0 && Int32BE([], 20) == 0;
  }

  /**
   * Decoding never fails: every reply, of any length, yields a version string
   * and three signed 32-bit counters; a reply of at least four bytes yields
   * the dotted decimal form of bytes 1, 2 and 3.
   */
  lemma DecodeIsTotal(b: seq<Byte>)
    ensures ParseResponse(b).version.Some? && ParseResponse(b).bandwidth.Some?
    ensures -TWO_31 <= ParseResponse(b).users < TWO_31 && -TWO_31 <= ParseResponse(b).maxUsers < TWO_31
    ensures -TWO_31 <= ParseResponse(b).bandwidth.value < TWO_31
    ensures |b| >= 4 ==> ParseResponse(b).version == Some(Dotted(b[1], b[2], b[3]))
  {
    Int32BEIsTwosComplement(b, 12);
    Int32BEIsTwosComplement(b, 16);
    Int32BEIsTwosComplement(b, 20);
    if |b| >= 4 {
      VersionStringRoundTrip(b);
    }
  }

  /** A server reply: bytes 0 .. 3 the version, 4 .. 11 the echoed identification, then three words. */
  function EncodeResponse(version: seq<Byte>, ident: seq<Byte>, users: nat, maxUsers: nat, bandwidth: nat): (r: seq<Byte>)
    requires |version| == 4 && |ident| == 8
    requires users < TWO_32 && maxUsers < TWO_32 && bandwidth < TWO_32
    ensures |r| == 24
  {
    version + ident + EncodeUInt32BE(users) + EncodeUInt32BE(maxUsers) + EncodeUInt32BE(bandwidth)
  }

  /** The dotted version string of three octets. */
  function Dotted(major: Byte, minor: Byte, patch: Byte): string
  {
    Decimal(major) + "." + Decimal(minor) + "." + Decimal(patch)
  }

  /**
   * Round trip: decoding an encoded reply gives back the version bytes 1 .. 3
   * as a dotted string and the three counters, for counters below 2^31.
   */
  lemma ParseRoundTrip(version: seq<Byte>, ident: seq<Byte>, users: nat, maxUsers: nat, bandwidth: nat)
    requires |version| == 4 && |ident| == 8
    requires users < TWO_31 && maxUsers < TWO_31 && bandwidth < TWO_31
    ensures ParseResponse(EncodeResponse(version, ident, users, maxUsers, bandwidth)) ==
            MumblePingResult(Some(Dotted(version[1], version[2], version[3])), users, maxUsers, Some(bandwidth))
  {
    var r := EncodeResponse(version, ident, users, maxUsers, bandwidth);
    var e1, e2, e3 := EncodeUInt32BE(users), EncodeUInt32BE(maxUsers), EncodeUInt32BE(bandwidth);
    var h0 := version + ident;
    assert r == h0 + e1 + e2 + e3;
    assert r[12..16] == e1 by { assert (h0 + e1)[12..16] == e1; }
    assert r[16..20] == e2 by { assert (h0 + e1 + e2)[16..20] == e2; }
    assert r[20..24] == e3;
    Int32BERoundTrip(r, 12, users);
    Int32BERoundTrip(r, 16, maxUsers);
    Int32BERoundTrip(r, 20, bandwidth);
    assert r[1] == version[1] && r[2] == version[2] && r[3] == version[3];
  }

  /**
   * The reply of a server at version 1.2.3 with 12 of 100 users and a
   * bandwidth of 72000 bit/s.
   */
  lemma ExampleReply()
    ensures ParseResponse([0, 1, 2, 3, 0, 0, 0, 0, 0, 0, 0, 0, 0, 0, 0, 12, 0, 0, 0, 100, 0, 1, 0x19, 0x40]) ==
            MumblePingResult(Some("1.2.3"), 12, 100, Some(72000))
  {
    var b: seq<Byte> := [0, 1, 2, 3, 0, 0, 0, 0, 0, 0, 0, 0, 0, 0, 0, 12, 0, 0, 0, 100, 0, 1, 0x19, 0x40];
    assert Int32BE(b, 12) == 12 && Int32BE(b, 16) == 100 && Int32BE(b, 20) == 72000;
    assert VersionString(b) == "1.2.3" by {
      assert VersionPart(b, 1) == Finite(1) && VersionPart(b, 2) == Finite(2) && VersionPart(b, 3) == Finite(3);
      assert DigitChar(1) == '1' && DigitChar(2) == '2' && DigitChar(3) == '3';
      assert Decimal(1) == "1" && Decimal(2) == "2" && Decimal(3) == "3";
      assert "1" + "." + "2" + "." + "3" == "1.2.3";
    }
  }

  // ----- the version string loses nothing -----

  /** `s.split(sep)`. */
  function SplitOn(s: string, sep: char): (parts: seq<string>)
    ensures |parts| >= 1
  {
    if s == [] then [""]
    else
      var rest := SplitOn(s[1..], sep);
      if s[0] == sep then [""] + rest else [[s[0]] + rest[0]] + rest[1..]
  }

  lemma {:induction false} SplitOnNoSeparator(a: string, sep: char, t: string)
    requires forall i :: 0 <= i < |a| ==> a[i] != sep
    ensures SplitOn(a + [sep] + t, sep) == [a] + SplitOn(t, sep)
    ensures SplitOn(a, sep) == [a]
  {
    if a != [] {
      assert (a + [sep] + t)[1..] == a[1..] + [sep] + t;
      SplitOnNoSeparator(a[1..], sep, t);
      assert [a[0]] + a[1..] == a;
    }
  }

  /** Reads a dotted version string back into its numbers. */
  function ParseVersion(s: string): seq<nat>
  {
    var parts := SplitOn(s, '.');
    seq(|parts|, i requires 0 <= i < |parts| => DecimalValue(parts[i]))
  }

  /** Splitting three dot-free parts joined by dots gives back the parts. */
  lemma SplitThree(a: string, b: string, c: string)
    requires forall i :: 0 <= i < |a| ==> a[i] != '.'
    requires forall i :: 0 <= i < |b| ==> b[i] != '.'
    requires forall i :: 0 <= i < |c| ==> c[i] != '.'
    ensures SplitOn(a + "." + b + "." + c, '.') == [a, b, c]
  {
    assert a + "." + b + "." + c == a + ['.'] + (b + ['.'] + c);
    SplitOnNoSeparator(a, '.', b + ['.'] + c);
    SplitOnNoSeparator(b, '.', c);
    SplitOnNoSeparator(c, '.', []);
  }

  /** The version string of a reply of at least four bytes spells out exactly bytes 1, 2 and 3. */
  lemma VersionStringRoundTrip(bytes: seq<Byte>)
    requires |bytes| >= 4
    ensures VersionString(bytes) == Dotted(bytes[1], bytes[2], bytes[3])
    ensures ParseVersion(VersionString(bytes)) == [bytes[1], bytes[2], bytes[3]]
  {
    var a, b, c := Decimal(bytes[1]), Decimal(bytes[2]), Decimal(bytes[3]);
    assert VersionString(bytes) == a + "." + b + "." + c by {
      assert VersionPart(bytes, 1) == Finite(bytes[1]);
      assert VersionPart(bytes, 2) == Finite(bytes[2]);
      assert VersionPart(bytes, 3) == Finite(bytes[3]);
    }
    assert SplitOn(a + "." + b + "." + c, '.') == [a, b, c] by {
      SplitThree(a, b, c);
    }
    assert [DecimalValue(a), DecimalValue(b), DecimalValue(c)] == [bytes[1], bytes[2], bytes[3]] by {
      DecimalRoundTrip(bytes[1]);
      DecimalRoundTrip(bytes[2]);
      DecimalRoundTrip(bytes[3]);
    }
  }
}
