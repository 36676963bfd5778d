/** The Growl UDP packet codec (class GrowlPacket of growlpeat.py): packet
    type, checksum verification against the relay password, re-signing for a
    client password, and the summary printed in the log. */
module Packet {
  import opened Wrappers
  import opened PyBytes

  /** UDP port of Growl, for both the relay and its clients. */
  const GROWL_UDP_PORT: nat := 9887

  /** A supported packet ends with an MD5 digest of this many bytes. */
  const CHECKSUM_LENGTH: nat := 16

  const ZERO_DIGEST: seq<byte> := seq(CHECKSUM_LENGTH, _ => 0)

  /** MD5 as the relay uses it: `hashlib.md5` over the concatenated input,
      returning the 16-byte binary digest. Only the length of the digest is
      known to the model; everything else about it stays abstract. */
  type Md5 = h: seq<byte> -> seq<byte> | forall s :: |h(s)| == CHECKSUM_LENGTH
    witness (_: seq<byte>) => ZERO_DIGEST

  datatype PacketType = Register | Notify | Unsupported

  /** `GrowlPacket.type()`: the type is read from byte 1. */
  function TypeOf(data: seq<byte>): (t: PacketType)
    requires |data| >= 2
    ensures t == Register <==> data[1] == 0x00
    ensures t == Notify <==> data[1] == 0x01
    ensures t == Unsupported <==> data[1] != 0x00 && data[1] != 0x01
  {
    if data[1] == 0x00 then Register
    else if data[1] == 0x01 then Notify
    else Unsupported
  }

  /** `data[:-16]`, the bytes the checksum covers. */
  function Unchecked(data: seq<byte>): (r: seq<byte>)
    ensures |data| >= CHECKSUM_LENGTH ==> r == data[..|data| - CHECKSUM_LENGTH]
    ensures |data| < CHECKSUM_LENGTH ==> r == []
  {
    Slice(data, 0, -(CHECKSUM_LENGTH as int))
  }

  /** `data[-16:]`, the checksum a packet carries. */
  function Trailer(data: seq<byte>): (r: seq<byte>)
    ensures |data| >= CHECKSUM_LENGTH ==> r == data[|data| - CHECKSUM_LENGTH..]
    ensures |data| < CHECKSUM_LENGTH ==> r == data
  {
    Slice(data, -(CHECKSUM_LENGTH as int), |data|)
  }

  /** A packet is valid for a secret when it is of a supported type and its
      trailing 16 bytes are the MD5 of the rest followed by the secret. */
  predicate IsValid(md5: Md5, data: seq<byte>, secret: seq<byte>)
    requires |data| >= 2
    ensures IsValid(md5, data, secret) ==> |data| >= CHECKSUM_LENGTH && TypeOf(data) != Unsupported
  {
    TypeOf(data) != Unsupported && md5(Unchecked(data) + secret) == Trailer(data)
  }

  /** A body followed by its checksum for a secret. */
  function Sign(md5: Md5, body: seq<byte>, secret: seq<byte>): seq<byte> {
    body + md5(body + secret)
  }

  /** The packet with its checksum replaced by one for another secret. */
  function Resign(md5: Md5, data: seq<byte>, secret: seq<byte>): (r: seq<byte>)
    ensures |data| >= CHECKSUM_LENGTH ==>
      |r| == |data| && r[..|data| - CHECKSUM_LENGTH] == data[..|data| - CHECKSUM_LENGTH]
    ensures |data| < CHECKSUM_LENGTH ==> |r| == CHECKSUM_LENGTH
    ensures r[|r| - CHECKSUM_LENGTH..] == md5(Unchecked(data) + secret)
  {
    Sign(md5, Unchecked(data), secret)
  }

  /** What a GrowlPacket holds once constructed: its `valid` flag and its `data`. */
  datatype Checked = Checked(valid: bool, data: seq<byte>)

  /** The state `GrowlPacket.__init__` leaves behind for the received bytes,
      the relay password and an optional client password. */
  function Verified(md5: Md5, received: seq<byte>, relayPassword: seq<byte>,
                    clientPassword: Option<seq<byte>>): (r: Checked)
    requires |received| >= 2
    // an unsupported packet is never valid and never touched
    ensures TypeOf(received) == Unsupported ==> r == Checked(false, received)
    // a supported packet is valid exactly when its checksum matches; a
    // packet shorter than a digest never is
    ensures TypeOf(received) != Unsupported ==>
      (r.valid <==> |received| >= CHECKSUM_LENGTH &&
                    received[|received| - CHECKSUM_LENGTH..] ==
                      md5(received[..|received| - CHECKSUM_LENGTH] + relayPassword))
    // an invalid packet, or a valid one with no client password, is kept byte for byte
    ensures !r.valid || clientPassword.None? ==> r.data == received
    // re-signing keeps the length and every byte but the last 16
    ensures r.valid && clientPassword.Some? ==>
      var n := |received| - CHECKSUM_LENGTH;
      |r.data| == |received| && r.data[..n] == received[..n] &&
      r.data[n..] == md5(received[..n] + clientPassword.value)
  {
    if IsValid(md5, received, relayPassword) then
      Checked(true, if clientPassword.Some? then Resign(md5, received, clientPassword.value) else received)
    else
      Checked(false, received)
  }

  /** A GrowlPacket: the datagram bytes and whether they carried a checksum
      for the relay password. `__init__` re-signs `data` in place when it is
      given a client password. */
  class GrowlPacket {
    var valid: bool
    var data: seq<byte>

    /** A datagram shorter than two bytes raises IndexError in `type()`
        before anything is set; the handler models that case. */
    constructor (received: seq<byte>, relayPassword: seq<byte>, clientPassword: Option<seq<byte>>, md5: Md5)
      requires |received| >= 2
      ensures Checked(valid, data) == Verified(md5, received, relayPassword, clientPassword)
    {
      valid := false;
      data := received;
      new;
      if TypeOf(data) != Unsupported {
        var unchecked := Unchecked(data);
        if md5(unchecked + relayPassword) == Trailer(data) {
          valid := true;
          if clientPassword.Some? {
            data := unchecked + md5(unchecked + clientPassword.value);
          }
        }
      }
    }
  }

  /** Signing a body whose byte 1 names a supported type yields a valid
      packet for that secret. */
  lemma SignedIsValid(md5: Md5, body: seq<byte>, secret: seq<byte>)
    requires |body| >= 2 && (body[1] == 0x00 || body[1] == 0x01)
    ensures IsValid(md5, Sign(md5, body, secret), secret)
  {
    var data := Sign(md5, body, secret);
    assert data[..|data| - CHECKSUM_LENGTH] == body;
  }

  /** Conversely, every valid packet is its own body signed with the secret. */
  lemma ValidIsSigned(md5: Md5, data: seq<byte>, secret: seq<byte>)
    requires |data| >= 2 && IsValid(md5, data, secret)
    ensures |data| >= CHECKSUM_LENGTH && data == Sign(md5, Unchecked(data), secret)
  {
    assert data == data[..|data| - CHECKSUM_LENGTH] + data[|data| - CHECKSUM_LENGTH..];
  }

  /** Re-signing a valid packet for a client password yields a packet that
      the client, checking against its own password, accepts, as long as the
      type byte lies outside the checksum. (A valid packet of 16 or 17 bytes
      has its type byte inside the digest, and the new digest may turn it
      into an unsupported one.) */
  lemma ResignedIsValidForClient(md5: Md5, data: seq<byte>, relayPassword: seq<byte>, clientPassword: seq<byte>)
    requires |data| >= CHECKSUM_LENGTH + 2 && IsValid(md5, data, relayPassword)
    ensures IsValid(md5, Resign(md5, data, clientPassword), clientPassword)
  {
    var body := data[..|data| - CHECKSUM_LENGTH];
    assert body[1] == data[1];
    assert Unchecked(data) == body;
    SignedIsValid(md5, body, clientPassword);
  }

  /** A packet checked once without a client password keeps its bytes, so
      checking those bytes again with a client password always succeeds and
      re-signs them. */
  lemma ReverificationSucceeds(md5: Md5, received: seq<byte>, relayPassword: seq<byte>, clientPassword: seq<byte>)
    requires |received| >= 2
    requires Verified(md5, received, relayPassword, None).valid
    ensures Verified(md5, Verified(md5, received, relayPassword, None).data, relayPassword, Some(clientPassword))
            == Checked(true, Resign(md5, received, clientPassword))
  {
  }

  // ---------------------------------------------------------------------
  // GrowlPacket.info()

  /** The summary `info()` prints: the four string fields of a NOTIFY packet,
      or a slice of the bytes from offset 6 for any other packet. */
  datatype Info =
    | NotifyInfo(name: seq<byte>, title: seq<byte>, description: seq<byte>, application: seq<byte>)
    | Excerpt(bytes: seq<byte>)

  /** The NOTIFY branch: four big-endian lengths at offsets 4, 6, 8 and 10,
      then `struct.unpack("%ds%ds%ds%ds", data[12:len(data)-16])`, which
      raises `struct.error` (None) unless the lengths add up to the size of
      that slice. */
  function NotifyInfoOf(data: seq<byte>): (r: Option<Info>)
    ensures |data| < 12 ==> r == None
    ensures r.Some? ==> r.value.NotifyInfo?
  {
    match (UnpackShort(Slice(data, 4, 6)), UnpackShort(Slice(data, 6, 8)),
           UnpackShort(Slice(data, 8, 10)), UnpackShort(Slice(data, 10, 12)))
    case (Some(nlen), Some(tlen), Some(dlen), Some(alen)) =>
      var fields := Slice(data, 12, |data| - CHECKSUM_LENGTH as int);
      if nlen + tlen + dlen + alen == |fields| then
        Some(NotifyInfo(fields[..nlen], fields[nlen..nlen + tlen],
                        fields[nlen + tlen..nlen + tlen + dlen], fields[nlen + tlen + dlen..]))
      else None
    case _ => None
  }

  /** The other branch as written: `data[6:7+length]` with `length` the
      big-endian number in bytes 2-3; `struct.error` (None) when the packet
      is shorter than four bytes. */
  function ExcerptAsWritten(data: seq<byte>): (r: Option<Info>)
    ensures r.Some? <==> |data| >= 4
    ensures r.Some? ==> r.value.Excerpt? && |r.value.bytes| <= Short(data, 2) + 1
  {
    match UnpackShort(Slice(data, 2, 4))
    case Some(length) => Some(Excerpt(Slice(data, 6, 7 + length)))
    case None => None
  }

  /** The other branch as intended: the `length` bytes from offset 6, where a
      registration packet keeps its application name. */
  function ExcerptOf(data: seq<byte>): (r: Option<Info>)
    ensures r.Some? <==> |data| >= 4
    ensures r.Some? ==> r.value.Excerpt? && |r.value.bytes| <= Short(data, 2)
  {
    match UnpackShort(Slice(data, 2, 4))
    case Some(length) => Some(Excerpt(Slice(data, 6, 6 + length)))
    case None => None
  }

  /** `GrowlPacket.info()` as written; the handler's log uses this one.
      None stands for the `struct.error` it raises. */
  function InfoAsWritten(data: seq<byte>): (r: Option<Info>)
    requires |data| >= 2
    ensures TypeOf(data) != Notify ==> (r.Some? <==> |data| >= 4)
    ensures TypeOf(data) == Notify && |data| < 12 ==> r == None
    ensures r.Some? ==> (r.value.NotifyInfo? <==> TypeOf(data) == Notify)
  {
    if TypeOf(data) == Notify then NotifyInfoOf(data) else ExcerptAsWritten(data)
  }

  /** `GrowlPacket.info()` with the excerpt bound corrected. */
  function InfoOf(data: seq<byte>): (r: Option<Info>)
    requires |data| >= 2
    ensures TypeOf(data) != Notify ==> (r.Some? <==> |data| >= 4)
    ensures TypeOf(data) == Notify && |data| < 12 ==> r == None
    ensures r.Some? ==> (r.value.NotifyInfo? <==> TypeOf(data) == Notify)
  {
    if TypeOf(data) == Notify then NotifyInfoOf(data) else ExcerptOf(data)
  }

  /** The big-endian 16-bit number stored at offset i. */
  function Short(data: seq<byte>, i: nat): nat
    requires i + 2 <= |data|
  {
    data[i] as int * 0x100 + data[i + 1] as int
  }

  /** A NOTIFY packet of at least 12 bytes is summarised exactly when its
      four lengths add up to the bytes between offset 12 and the checksum;
      the four fields then have those lengths and, in order, make up those
      bytes. A shorter NOTIFY packet makes `info()` fail. */
  lemma {:induction false} NotifyInfoSplits(data: seq<byte>)
    requires |data| >= 2 && TypeOf(data) == Notify
    ensures |data| < 12 ==> InfoAsWritten(data) == None
    ensures |data| >= 12 ==>
      var fields := Slice(data, 12, |data| - CHECKSUM_LENGTH as int);
      var n, t, d, a := Short(data, 4), Short(data, 6), Short(data, 8), Short(data, 10);
      (InfoAsWritten(data).Some? <==> n + t + d + a == |fields|) &&
      (InfoAsWritten(data).Some? ==>
        var info := InfoAsWritten(data).value;
        info.NotifyInfo? &&
        |info.name| == n && |info.title| == t && |info.description| == d && |info.application| == a &&
        info.name + info.title + info.description + info.application == fields)
  {
    if |data| >= 12 {
      NotifyFields(data);
      var fields := Slice(data, 12, |data| - CHECKSUM_LENGTH as int);
      var n, t, d := Short(data, 4), Short(data, 6), Short(data, 8);
      if n + t + d + Short(data, 10) == |fields| {
        SplitRebuilds(fields, n, t, d);
      }
    } else {
      assert |Slice(data, 10, 12)| != 2;
    }
  }

  /** With its header in place, a NOTIFY summary is the bytes between
      offset 12 and the checksum cut at the four lengths, when they add up. */
  lemma NotifyFields(data: seq<byte>)
    requires |data| >= 12
    ensures
      var fields := Slice(data, 12, |data| - CHECKSUM_LENGTH as int);
      var n, t, d, a := Short(data, 4), Short(data, 6), Short(data, 8), Short(data, 10);
      NotifyInfoOf(data) ==
        if n + t + d + a == |fields|
        then Some(NotifyInfo(fields[..n], fields[n..n + t], fields[n + t..n + t + d], fields[n + t + d..]))
        else None
  {
    LengthFields(data);
  }

  /** The four length fields of a NOTIFY header unpack to the numbers at
      offsets 4, 6, 8 and 10. */
  lemma LengthFields(data: seq<byte>)
    requires |data| >= 12
    ensures UnpackShort(Slice(data, 4, 6)) == Some(Short(data, 4))
    ensures UnpackShort(Slice(data, 6, 8)) == Some(Short(data, 6))
    ensures UnpackShort(Slice(data, 8, 10)) == Some(Short(data, 8))
    ensures UnpackShort(Slice(data, 10, 12)) == Some(Short(data, 10))
  {
    assert Slice(data, 4, 6) == data[4..6];
    assert Slice(data, 6, 8) == data[6..8];
    assert Slice(data, 8, 10) == data[8..10];
    assert Slice(data, 10, 12) == data[10..12];
  }

  /** Cutting a sequence at three ordered points and joining the four
      pieces gives it back. */
  lemma SplitRebuilds(s: seq<byte>, n: nat, t: nat, d: nat)
    requires n + t + d <= |s|
    ensures s[..n] + s[n..n + t] + s[n + t..n + t + d] + s[n + t + d..] == s
  {
    assert s[..n + t] == s[..n] + s[n..n + t];
    assert s[..n + t + d] == s[..n + t] + s[n + t..n + t + d];
    assert s == s[..n + t + d] + s[n + t + d..];
  }

  /** From 28 bytes on, the bytes between offset 12 and the checksum are
      `len - 28` bytes: `info()` succeeds on a NOTIFY packet exactly when its
      four lengths add up to `len - 28`. */
  lemma NotifyInfoLongPacket(data: seq<byte>)
    requires |data| >= 28 && TypeOf(data) == Notify
    ensures InfoAsWritten(data).Some? <==>
      Short(data, 4) + Short(data, 6) + Short(data, 8) + Short(data, 10) == |data| - 28
  {
    NotifyInfoSplits(data);
  }

  /** The correction touches only packets that are not NOTIFY, and it
      never changes whether `info()` fails. */
  lemma InfoAgreesOnNotify(data: seq<byte>)
    requires |data| >= 2
    ensures TypeOf(data) == Notify ==> InfoOf(data) == InfoAsWritten(data)
    ensures InfoOf(data).None? <==> InfoAsWritten(data).None?
  {
  }

  /** As written, a packet that is not NOTIFY is summarised by one byte more
      than its length field announces: the byte after the application name. */
  lemma ExcerptAsWrittenOverreads(data: seq<byte>)
    requires |data| >= 4 && |data| >= 7 + Short(data, 2)
    ensures ExcerptAsWritten(data).Some?
    ensures ExcerptAsWritten(data).value.bytes == data[6..7 + Short(data, 2)]
    ensures |ExcerptAsWritten(data).value.bytes| == Short(data, 2) + 1
  {
    assert Slice(data, 2, 4) == data[2..4];
  }

  /** Corrected, the summary is exactly the `length` bytes from offset 6
      when the packet holds them, and `info()` still fails below 4 bytes. */
  lemma ExcerptMatchesLength(data: seq<byte>)
    ensures |data| < 4 ==> ExcerptOf(data) == None
    ensures |data| >= 4 && |data| >= 6 + Short(data, 2) ==>
      ExcerptOf(data) == Some(Excerpt(data[6..6 + Short(data, 2)])) &&
      |ExcerptOf(data).value.bytes| == Short(data, 2)
  {
    if |data| >= 4 {
      assert Slice(data, 2, 4) == data[2..4];
    } else {
      assert |Slice(data, 2, 4)| != 2;
    }
  }
}
