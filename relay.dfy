/** The relay's request handler (`_RequestHandler.handle` of growlpeat.py):
    check a received datagram once against the relay password and, when it
    is valid, send it to every configured client, re-signed for that
    client's password. Sends are recorded in an output list; the log line is
    returned as a record. */
module Relay {
  import opened Wrappers
  import opened PyBytes
  import opened Packet
  import opened Config

  /** One UDP datagram sent by the relay. */
  datatype Datagram = Datagram(host: seq<byte>, port: nat, payload: seq<byte>)

  datatype Outcome = Discarded | Repeated

  /** The fields of the line `handle` prints for each datagram. */
  datatype LogRecord = LogRecord(kind: PacketType, info: Info, length: nat, outcome: Outcome)

  /** The exceptions that can escape `handle`: IndexError when the datagram
      has no type byte (raised before anything is sent), struct.error when
      `info()` cannot decode it (raised after the sends, instead of the log line). */
  datatype HandlerError = IndexError | StructError

  /** The datagrams the relay sends for a received one, in the order of the
      client list. */
  function Relayed(md5: Md5, config: RelayConfig, received: seq<byte>): (sends: seq<Datagram>)
    // an invalid datagram (or one too short to have a type) reaches nobody
    ensures |received| < 2 || !IsValid(md5, received, config.password) ==> sends == []
    // a valid one reaches every client exactly once, in list order, with
    // the same bytes but for a checksum made with that client's password
    ensures |received| >= 2 && IsValid(md5, received, config.password) ==>
      var n := |received| - CHECKSUM_LENGTH;
      |sends| == |config.clients| &&
      forall i :: 0 <= i < |sends| ==>
        sends[i].host == config.clients[i].host && sends[i].port == GROWL_UDP_PORT &&
        |sends[i].payload| == |received| && sends[i].payload[..n] == received[..n] &&
        sends[i].payload[n..] == md5(received[..n] + config.clients[i].password)
  {
    if |received| >= 2 && IsValid(md5, received, config.password) then
      seq(|config.clients|, i requires 0 <= i < |config.clients| =>
        Datagram(config.clients[i].host, GROWL_UDP_PORT, Resign(md5, received, config.clients[i].password)))
    else []
  }

  /** Every datagram the relay sends is valid for the password of the client
      it is sent to (for a datagram whose type byte lies before its checksum). */
  lemma RelayedDatagramsAreValid(md5: Md5, config: RelayConfig, received: seq<byte>)
    requires |received| >= CHECKSUM_LENGTH + 2
    ensures forall i :: 0 <= i < |Relayed(md5, config, received)| ==>
      |Relayed(md5, config, received)[i].payload| >= 2 &&
      IsValid(md5, Relayed(md5, config, received)[i].payload, config.clients[i].password)
  {
    var sends := Relayed(md5, config, received);
    forall i | 0 <= i < |sends|
      ensures |sends[i].payload| >= 2 && IsValid(md5, sends[i].payload, config.clients[i].password)
    {
      ResignedIsValidForClient(md5, received, config.password, config.clients[i].password);
    }
  }

  /** `handle`, for one received datagram. */
  method Handle(md5: Md5, config: RelayConfig, received: seq<byte>)
    returns (sends: seq<Datagram>, log: Result<LogRecord, HandlerError>)
    ensures sends == Relayed(md5, config, received)
    ensures |received| < 2 ==> log == Failure(IndexError)
    ensures |received| >= 2 && InfoAsWritten(received).None? ==> log == Failure(StructError)
    ensures |received| >= 2 && InfoAsWritten(received).Some? ==>
      log == Success(LogRecord(TypeOf(received), InfoAsWritten(received).value, |received|,
                               if IsValid(md5, received, config.password) then Repeated else Discarded))
  {
    sends := [];
    if |received| < 2 {
      return sends, Failure(IndexError);
    }
    var receivedPacket := new GrowlPacket(received, config.password, None, md5);
    var outcome := Discarded;
    if receivedPacket.valid {
      outcome := Repeated;
      for i := 0 to |config.clients|
        invariant receivedPacket.data == received
        invariant sends == Relayed(md5, config, received)[..i]
      {
        var client := config.clients[i];
        var clientPacket := new GrowlPacket(receivedPacket.data, config.password, Some(client.password), md5);
        sends := sends + [Datagram(client.host, GROWL_UDP_PORT, clientPacket.data)];
      }
    }
    match InfoAsWritten(receivedPacket.data)
    case None =>
      log := Failure(StructError);
    case Some(info) =>
      log := Success(LogRecord(TypeOf(receivedPacket.data), info, |receivedPacket.data|, outcome));
  }
}
