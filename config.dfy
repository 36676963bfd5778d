/** Reading and validating the relay's configuration (class GrowlpeatConfig
    of growlpeat.py). The file is a list of `key = value` lines; the relay
    password and the client list it yields are the globals
    GROWLPEAT_PASSWORD and GROWL_CLIENTS, modelled here as the two fields of
    a GrowlpeatConfig object. */
module Config {
  import opened Wrappers
  import opened PyBytes

  const HASH: byte := 0x23    // '#'
  const EQUALS: byte := 0x3D  // '='
  const COLON: byte := 0x3A   // ':'

  const CLIENT_KEY: seq<byte> := Ascii("growlpeat.client")
  const PASSWORD_KEY: seq<byte> := Ascii("growlpeat.password")

  /** One Growl client to relay to: its host name and the password it expects. */
  datatype Client = Client(host: seq<byte>, password: seq<byte>)

  /** What one line of the file contributes. */
  datatype Entry = ClientEntry(client: Client) | PasswordEntry(password: seq<byte>) | Skipped

  /** A line starting with '#'. */
  predicate IsComment(line: seq<byte>) {
    |line| > 0 && line[0] == HASH
  }

  /** The key and the value of a property line: the line is split at its
      first '=' and both sides are stripped. Comments and lines without '='
      are not property lines. */
  function Property(line: seq<byte>): (p: Option<(seq<byte>, seq<byte>)>)
    ensures p.None? <==> IsComment(line) || EQUALS !in line
  {
    if IsComment(line) then None
    else match SplitFirst(line, EQUALS)
      case None => None
      case Some((key, value)) => Some((Strip(key), Strip(value)))
  }

  /** A property line is split at its first '=': the key is the stripped
      text before it and the value the stripped text after it, further '='
      included. */
  lemma PropertySplitsAtFirstEquals(line: seq<byte>)
    requires Property(line).Some?
    ensures exists i :: 0 <= i < |line| && line[i] == EQUALS && EQUALS !in line[..i] &&
                        Property(line).value == (Strip(line[..i]), Strip(line[i + 1..]))
  {
    var (key, value) := SplitFirst(line, EQUALS).value;
    assert line[|key|] == EQUALS && line[..|key|] == key && line[|key| + 1..] == value;
  }

  /** What a line contributes before the host name is probed. A
      `growlpeat.client` value is split at its first ':' (the password may
      hold further ones) and dropped when it has no ':' or an empty host. */
  function ParseLine(line: seq<byte>): (e: Entry)
    ensures Property(line).None? ==> e == Skipped
    ensures e.PasswordEntry? <==> Property(line).Some? && Property(line).value.0 == PASSWORD_KEY
    ensures e.PasswordEntry? ==> e.password == Property(line).value.1
    ensures e.ClientEntry? <==>
      Property(line).Some? && Property(line).value.0 == CLIENT_KEY &&
      COLON in Property(line).value.1 && Property(line).value.1[0] != COLON
    ensures e.ClientEntry? ==>
      e.client.host != [] && COLON !in e.client.host &&
      e.client.host + [COLON] + e.client.password == Property(line).value.1
  {
    match Property(line)
    case None => Skipped
    case Some((key, value)) =>
      if key == CLIENT_KEY then
        match SplitFirst(value, COLON)
        case None => Skipped
        case Some((host, password)) =>
          if host != [] then ClientEntry(Client(host, password)) else Skipped
      else if key == PASSWORD_KEY then PasswordEntry(value)
      else Skipped
  }

  /** What each line of a file contributes, line by line. */
  function Parsed(lines: seq<seq<byte>>): (entries: seq<Entry>)
    ensures |entries| == |lines|
    ensures forall k :: 0 <= k < |lines| ==> entries[k] == ParseLine(lines[k])
  {
    seq(|lines|, k requires 0 <= k < |lines| => ParseLine(lines[k]))
  }

  /** The clients an entry adds: its client, if the host name resolves. */
  function Added(e: Entry, resolvable: seq<byte> -> bool): seq<Client> {
    if e.ClientEntry? && resolvable(e.client.host) then [e.client] else []
  }

  /** The clients the entries add, in order. */
  function KeptClients(entries: seq<Entry>, resolvable: seq<byte> -> bool): (kept: seq<Client>)
    ensures |kept| <= |entries|
  {
    if entries == [] then []
    else KeptClients(entries[..|entries| - 1], resolvable) + Added(entries[|entries| - 1], resolvable)
  }

  /** The relay password after the entries, starting from `initial`: the
      value of the last password entry, if there is one. */
  function FinalPassword(entries: seq<Entry>, initial: Option<seq<byte>>): (r: Option<seq<byte>>)
    // reading never unsets a password
    ensures initial.Some? ==> r.Some?
  {
    if entries == [] then initial
    else if entries[|entries| - 1].PasswordEntry? then Some(entries[|entries| - 1].password)
    else FinalPassword(entries[..|entries| - 1], initial)
  }

  /** Appending is associative. */
  lemma AppendAssoc<T>(a: seq<T>, b: seq<T>, c: seq<T>)
    ensures (a + b) + c == a + (b + c)
  {
  }

  /** One more entry extends the kept clients by its own and the password
      by its own, if it has one. */
  lemma PrefixStep(entries: seq<Entry>, i: nat, resolvable: seq<byte> -> bool, initial: Option<seq<byte>>)
    requires i < |entries|
    ensures KeptClients(entries[..i + 1], resolvable) == KeptClients(entries[..i], resolvable) + Added(entries[i], resolvable)
    ensures FinalPassword(entries[..i + 1], initial) ==
      if entries[i].PasswordEntry? then Some(entries[i].password) else FinalPassword(entries[..i], initial)
  {
    assert entries[..i + 1][..i] == entries[..i];
  }

  /** Reading two parts of a file one after the other adds their clients
      one after the other: clients are kept in file order. */
  lemma {:induction false} KeptClientsAppend(a: seq<Entry>, b: seq<Entry>, resolvable: seq<byte> -> bool)
    ensures KeptClients(a + b, resolvable) == KeptClients(a, resolvable) + KeptClients(b, resolvable)
  {
    if b == [] {
      assert a + b == a;
    } else {
      var n := |b| - 1;
      assert (a + b)[..|a + b| - 1] == a + b[..n];
      KeptClientsAppend(a, b[..n], resolvable);
      AppendAssoc(KeptClients(a, resolvable), KeptClients(b[..n], resolvable), Added(b[n], resolvable));
    }
  }

  /** A client is kept exactly when some line is a well-formed client line
      for it and its host name resolves. */
  lemma {:induction false} KeptClientsFromLines(entries: seq<Entry>, resolvable: seq<byte> -> bool, c: Client)
    ensures c in KeptClients(entries, resolvable) <==>
      exists k :: 0 <= k < |entries| && entries[k] == ClientEntry(c) && resolvable(c.host)
  {
    if entries != [] {
      var n := |entries| - 1;
      var prefix := entries[..n];
      KeptClientsFromLines(prefix, resolvable, c);
      if c in KeptClients(entries, resolvable) && c !in KeptClients(prefix, resolvable) {
        assert entries[n] == ClientEntry(c);
      }
      if exists k :: 0 <= k < |entries| && entries[k] == ClientEntry(c) && resolvable(c.host) {
        var k :| 0 <= k < |entries| && entries[k] == ClientEntry(c) && resolvable(c.host);
        if k < n {
          assert prefix[k] == entries[k];
        }
      }
    }
  }

  /** Every kept client has a non-empty host without ':' that resolved. */
  lemma KeptClientsWellFormed(lines: seq<seq<byte>>, resolvable: seq<byte> -> bool)
    ensures forall c :: c in KeptClients(Parsed(lines), resolvable) ==>
      c.host != [] && COLON !in c.host && resolvable(c.host)
  {
    forall c | c in KeptClients(Parsed(lines), resolvable)
      ensures c.host != [] && COLON !in c.host && resolvable(c.host)
    {
      KeptClientsFromLines(Parsed(lines), resolvable, c);
      var k :| 0 <= k < |lines| && Parsed(lines)[k] == ClientEntry(c) && resolvable(c.host);
      assert ParseLine(lines[k]) == ClientEntry(c);
    }
  }

  /** The last password line wins, whatever came before it. */
  lemma {:induction false} LastPasswordWins(entries: seq<Entry>, initial: Option<seq<byte>>, k: nat)
    requires k < |entries| && entries[k].PasswordEntry?
    requires forall j :: k < j < |entries| ==> !entries[j].PasswordEntry?
    ensures FinalPassword(entries, initial) == Some(entries[k].password)
  {
    var n := |entries| - 1;
    if k < n {
      var prefix := entries[..n];
      assert forall j :: k < j < |prefix| ==> prefix[j] == entries[j];
      LastPasswordWins(prefix, initial, k);
    }
  }

  /** Without a password line the password is left as it was. */
  lemma {:induction false} NoPasswordLineKeepsPassword(entries: seq<Entry>, initial: Option<seq<byte>>)
    requires forall j :: 0 <= j < |entries| ==> !entries[j].PasswordEntry?
    ensures FinalPassword(entries, initial) == initial
  {
    if entries != [] {
      var prefix := entries[..|entries| - 1];
      assert forall j :: 0 <= j < |prefix| ==> prefix[j] == entries[j];
      NoPasswordLineKeepsPassword(prefix, initial);
    }
  }

  /** Why `validate` stops the relay. */
  datatype ConfigError = MissingPassword | NoClients

  /** A configuration the relay can run with. */
  datatype RelayConfig = RelayConfig(password: seq<byte>, clients: seq<Client>)

  /** The relay's configuration as `read` builds it. */
  class GrowlpeatConfig {
    var password: Option<seq<byte>>
    var clients: seq<Client>

    constructor ()
      ensures password == None && clients == []
    {
      password := None;
      clients := [];
    }

    /** `read`, over the lines of the file. `resolvable` stands for the
        probe that connects a UDP socket to the host. */
    method Read(lines: seq<seq<byte>>, resolvable: seq<byte> -> bool)
      modifies this
      ensures clients == old(clients) + KeptClients(Parsed(lines), resolvable)
      ensures password == FinalPassword(Parsed(lines), old(password))
    {
      ghost var entries := Parsed(lines);
      for i := 0 to |lines|
        invariant clients == old(clients) + KeptClients(entries[..i], resolvable)
        invariant password == FinalPassword(entries[..i], old(password))
      {
        PrefixStep(entries, i, resolvable, old(password));
        AppendAssoc(old(clients), KeptClients(entries[..i], resolvable), Added(entries[i], resolvable));
        ReadLine(lines[i], resolvable, entries[i]);
      }
      assert entries[..|lines|] == entries;
    }

    /** The body of `read`'s loop, for one line that parses to `e`: a client
        line appends its client when the host resolves, a password line
        replaces the password. */
    method ReadLine(line: seq<byte>, resolvable: seq<byte> -> bool, ghost e: Entry)
      requires e == ParseLine(line)
      modifies this
      ensures clients == old(clients) + Added(e, resolvable)
      ensures password == if e.PasswordEntry? then Some(e.password) else old(password)
    {
      if !IsComment(line) && EQUALS in line {
        var property := SplitFirst(line, EQUALS).value;
        var key, value := Strip(property.0), Strip(property.1);
        assert Property(line) == Some((key, value));
        if key == CLIENT_KEY {
          if COLON in value {
            var client := SplitFirst(value, COLON).value;
            var host := client.0;
            if host != [] {
              assert ParseLine(line) == ClientEntry(Client(host, client.1));
              if resolvable(host) {
                clients := clients + [Client(host, client.1)];
              }
            }
          }
        } else if key == PASSWORD_KEY {
          password := Some(value);
        }
      }
    }

    /** `validate`: a password must be set, then at least one client kept. */
    method Validate() returns (r: Result<RelayConfig, ConfigError>)
      ensures password.None? ==> r == Failure(MissingPassword)
      ensures password.Some? && clients == [] ==> r == Failure(NoClients)
      ensures r.Success? <==> password.Some? && clients != []
      ensures r.Success? ==> r.value == RelayConfig(password.value, clients)
    {
      if password == None {
        return Failure(MissingPassword);
      }
      if |clients| == 0 {
        return Failure(NoClients);
      }
      r := Success(RelayConfig(password.value, clients));
    }
  }
}
