# growlpeat in Dafny

growlpeat is a Growl repeater: it listens on UDP port 9887 for Growl
registration and notification packets signed with the relay's password,
and re-sends every valid packet to each configured Growl client, with the
trailing MD5 checksum recomputed for that client's password. This project
models its three moving parts and proves what they promise:

- `packet.dfy` (module `Packet`): the packet codec of class `GrowlPacket`:
  the packet type from byte 1, the checksum check against the relay
  password, re-signing for a client password (a class whose constructor
  sets `valid` and re-assigns `data` in place, proved against the function
  `Verified`), and `info()`, the summary printed in the log.
- `relay.dfy` (module `Relay`): `_RequestHandler.handle`: check once, then a
  loop that appends one datagram per configured client to an output list.
- `config.dfy` (module `Config`): `GrowlpeatConfig.read`, a loop over the
  lines of the property file that fills the relay password and the client
  list (the globals `GROWLPEAT_PASSWORD` and `GROWL_CLIENTS`, here the two
  fields of a `GrowlpeatConfig` object), and `validate`.
- `pybytes.dfy` (module `PyBytes`): the Python 2 `str` operations these rely
  on: slicing with negative and out-of-range bounds, `split(sep, 1)`,
  `strip()`, `struct.unpack("!H", ...)`.
- `wrappers.dfy`: `Option` and `Result`.

Bytes are integers 0..255; Python 2 strings (lines, passwords, packets) are
byte sequences. MD5 is a parameter of type `Packet.Md5`: any function that
returns 16 bytes, with nothing else known about it. The host-name probe of
`read` (a UDP `connect`) is a parameter `resolvable`.

The model follows the code as written: `info()` raises `struct.error` on packets whose lengths do not fit
(the handler's exception, `Relay.HandlerError.StructError`, raised after
the sends); a datagram shorter than two bytes raises IndexError in `type()`
before anything is sent (`IndexError`); and for NOTIFY packets shorter than
28 bytes the bytes `data[12:len-16]` follow Python's slice rules, so the
"lengths add up to len-28" rule holds only from 28 bytes on
(`Packet.NotifyInfoLongPacket`; the general rule is `Packet.NotifyInfoSplits`).

## Model

| member | source | states |
|---|---|---|
| `PyBytes.Slice` | growlpeat.py:100-104 | a Python slice never fails; with in-range bounds it is the plain subsequence |
| `PyBytes.FirstIndex` | growlpeat.py:190 | the first occurrence of a byte: it is there and not before; None exactly when absent |
| `PyBytes.SplitFirst` | growlpeat.py:189-190 | `split(sep, 1)` on a string that holds sep (both call sites check `count(sep) > 0` first): head + sep + tail rebuilds the string and the head holds no sep; None for a string without sep |
| `PyBytes.SplitFirstUnique` | growlpeat.py:197 | the split at the first sep is the only split whose head holds no sep, so the tail (a client password) keeps every later ':' |
| `PyBytes.Strip` | growlpeat.py:192-193 | a stripped string neither starts nor ends with whitespace |
| `PyBytes.StripTrimsEnds` | growlpeat.py:192-193 | `strip()` only removes whitespace, and only at the two ends |
| `PyBytes.UnpackShort` | growlpeat.py:127-133 | `struct.unpack("!H", s)` succeeds exactly on two bytes and yields the big-endian number below 65536 |
| `Packet.TypeOf` | growlpeat.py:114-122 | REGISTER iff byte 1 is 0x00, NOTIFY iff it is 0x01, UNSUPPORTED for every other value |
| `Packet.IsValid` | growlpeat.py:95-104 | only a packet of a supported type that holds at least the 16 checksum bytes can be valid |
| `Packet.Resign` | growlpeat.py:109-112 | re-signing keeps the length and every byte but the last 16, which become MD5(`data[:-16]` + secret); a packet under 16 bytes becomes the 16-byte checksum alone |
| `Packet.Unchecked` | growlpeat.py:100 | `data[:-16]` is all but the last 16 bytes, and empty for a packet under 16 bytes |
| `Packet.Trailer` | growlpeat.py:104 | `data[-16:]` is the last 16 bytes, and the whole packet under 16 bytes |
| `Packet.Verified` | growlpeat.py:90-112 | unsupported packets are never valid and never changed; a supported packet is valid iff it has at least 16 bytes and its last 16 are MD5(rest + relay password); invalid packets and valid ones without client password keep their bytes; re-signing keeps the length and all but the last 16 bytes, which become MD5(rest + client password) |
| `Packet.GrowlPacket.constructor` | growlpeat.py:90-112 | `__init__` leaves `valid` and `data` exactly as `Verified` says |
| `Packet.SignedIsValid` | growlpeat.py:100-105 | a body whose byte 1 is 0x00 or 0x01, followed by MD5(body + secret), is a valid packet for that secret |
| `Packet.ValidIsSigned` | growlpeat.py:100-105 | every valid packet has at least 16 bytes and is its own body signed with the secret |
| `Packet.ResignedIsValidForClient` | growlpeat.py:109-112 | a valid packet re-signed for a client password is valid for that password |
| `Packet.ReverificationSucceeds` | growlpeat.py:163-168 | the bytes of a packet checked without client password pass the check again, so the per-client packet is valid and re-signed |
| `Packet.NotifyInfoOf` | growlpeat.py:126-131 | the NOTIFY branch of `info()` fails under 12 bytes, and any summary it gives is the four NOTIFY fields |
| `Packet.ExcerptAsWritten` | growlpeat.py:132-134 | the other branch as written fails exactly under 4 bytes, and its excerpt holds at most `length` + 1 bytes |
| `Packet.ExcerptOf` | growlpeat.py:132-134 | the other branch corrected fails exactly under 4 bytes, and its excerpt holds at most `length` bytes |
| `Packet.InfoAsWritten` | growlpeat.py:124-134 | `info()` as written: a packet that is not NOTIFY is summarised iff it has at least 4 bytes, a NOTIFY packet under 12 bytes fails, and the summary is the four fields iff the packet is NOTIFY |
| `Packet.InfoOf` | growlpeat.py:124-134 | the same three facts for `info()` with the corrected excerpt |
| `Packet.InfoAgreesOnNotify` | growlpeat.py:124-134 | the correction leaves the summary of a NOTIFY packet unchanged and never changes whether `info()` fails |
| `Packet.NotifyInfoSplits` | growlpeat.py:126-131 | NOTIFY `info()` fails under 12 bytes; from 12 on it succeeds iff the four big-endian lengths add up to the size of `data[12:len-16]`, and the four fields then have those lengths and concatenate to those bytes |
| `Packet.NotifyInfoLongPacket` | growlpeat.py:126-131 | from 28 bytes on, NOTIFY `info()` succeeds iff the four lengths add up to len - 28 |
| `Packet.ExcerptAsWrittenOverreads` | growlpeat.py:132-134 | as written, the summary of a non-NOTIFY packet is `data[6:7+length]`: one byte more than its length field |
| `Packet.ExcerptMatchesLength` | growlpeat.py:132-134 | corrected, the summary is exactly the `length` bytes from offset 6; under 4 bytes `info()` fails |
| `Config.Property` | growlpeat.py:189-193 | comments and lines without '=' are not property lines; every other line is |
| `Config.PropertySplitsAtFirstEquals` | growlpeat.py:190-193 | key and value are the stripped text before and after the first '=' |
| `Config.ParseLine` | growlpeat.py:189-211 | a password line is exactly one whose key is `growlpeat.password`, carrying its value; a client line is exactly one whose key is `growlpeat.client` and whose value holds a ':' not at its start; its host is non-empty, has no ':', and host + ':' + password is the value |
| `Config.KeptClients` | growlpeat.py:194-206 | the lines keep at most one client each |
| `Config.FinalPassword` | growlpeat.py:209-211 | reading never unsets a password that was already set |
| `Config.KeptClientsAppend` | growlpeat.py:188-206 | clients are kept in file order: reading two parts adds their clients one after the other |
| `Config.KeptClientsFromLines` | growlpeat.py:194-206 | a client is kept iff some line is a client line for it and its host resolves |
| `Config.KeptClientsWellFormed` | growlpeat.py:196-206 | every kept client has a non-empty host without ':' that resolved |
| `Config.LastPasswordWins` | growlpeat.py:209-211 | the last password line sets the password, whatever came before |
| `Config.NoPasswordLineKeepsPassword` | growlpeat.py:209-211 | without a password line the password stays as it was |
| `Config.GrowlpeatConfig.constructor` | growlpeat.py:84-85 | no password and no clients before reading |
| `Config.GrowlpeatConfig.Read` | growlpeat.py:184-212 | the client list grows by the kept clients of the lines, in order; the password becomes that of the last password line, or stays |
| `Config.GrowlpeatConfig.ReadLine` | growlpeat.py:189-211 | one line: a client line appends its client iff the host resolves, a password line replaces the password, anything else changes nothing |
| `Config.GrowlpeatConfig.Validate` | growlpeat.py:217-231 | a missing password is reported first, then an empty client list; it accepts iff a password is set and a client kept, and hands both on |
| `Relay.Relayed` | growlpeat.py:161-171 | an invalid datagram is sent nowhere; a valid one goes once to every client, in list order, to its host on port 9887, same bytes but for the last 16, which are MD5(rest + that client's password) |
| `Relay.RelayedDatagramsAreValid` | growlpeat.py:167-170 | every datagram sent is valid for the password of the client it goes to |
| `Relay.Handle` | growlpeat.py:161-175 | sends exactly `Relayed`; a datagram under 2 bytes raises IndexError with nothing sent; otherwise the log holds type, `info()` as written (`Packet.InfoAsWritten`), length and REPEATED iff valid, or `info()` raises struct.error |

## Findings

| source | as written | input that shows it | evidently intended | confidence | as-written member | corrected member |
|---|---|---|---|---|---|---|
| growlpeat.py:134 | `return self.data[6:7+length]` | a REGISTER packet whose bytes 2-3 hold L and which has at least 7 + L bytes: the summary has L + 1 bytes, the application name plus the byte after it | `self.data[6:6+length]`, the application name that a registration packet keeps at offset 6 | medium, not executed | `Packet.ExcerptAsWrittenOverreads` | `Packet.ExcerptMatchesLength` |

The handler's log (`Relay.Handle`) holds `info()` as written,
`Packet.InfoAsWritten`. `Packet.InfoOf` is the corrected summary; by
`Packet.InfoAgreesOnNotify` the two differ only in the excerpt of packets
that are not NOTIFY, and fail on the same inputs.

## Left out

- The sockets: binding `GrowlRelay` to localhost:9887, `rfile.read()` (the datagram is a parameter), `sendto` (the datagrams are an output list) and `close`. A send is assumed never to raise; in the code an exception from `sendto` would end the loop and skip the remaining clients, so the model does not capture failure isolation between clients.
- MD5 itself: it stays abstract apart from its 16-byte length. Hence nothing is claimed about tamper detection, or about a packet failing for a wrong password: both depend on MD5 collision resistance.
- The host-name probe in `read` (`socket.connect`): the parameter `resolvable`.
- Opening and reading the property file, IOError handling and `sys.exit`: the file is given as its list of lines, and `validate` returns its verdict as a `Result` instead of printing and exiting.
- Log formatting: `log_date_time_string`, the client address and every `print`; the log line is a `Relay.LogRecord`.
- The `__main__` block, `serve_forever` and the KeyboardInterrupt handler.
- Packet.ResignedIsValidForClient: stated for packets of at least 18 bytes. In a valid packet of 16 or 17 bytes the type byte lies inside the checksum, and the client's new checksum may turn the packet into an unsupported one.
- Relay.RelayedDatagramsAreValid: stated for datagrams of at least 18 bytes, for the same reason.
