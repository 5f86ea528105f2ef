/**
 * The LDAP client of ldap/client.go: a session that is either empty or holds
 * the connection it dialled and bound, over an abstract transport whose dial,
 * bind and search outcomes are inputs. Every transport-level effect is
 * recorded as a `TransportEvent`, so connection leaks can be stated.
 */
module Ldap {
  import opened Wrappers
  import opened Strings

  /** One attribute of a returned entry, with its values in server order. */
  datatype EntryAttribute = EntryAttribute(name: string, values: seq<string>)

  /** One returned directory entry. */
  datatype Entry = Entry(dn: string, attributes: seq<EntryAttribute>)

  /** The already-decoded reply of a search. */
  datatype SearchResult = SearchResult(entries: seq<Entry>)

  /** The protocol-agnostic request the group resolver hands to the client. */
  datatype SearchRequest = SearchRequest(
    attributes: seq<string>,
    baseDn: string,
    searchFilter: string,
    searchTimeout: int)

  /** Search scopes of the transport library (section 4.5.1.2 of RFC 4511). */
  datatype Scope = ScopeBaseObject | ScopeSingleLevel | ScopeWholeSubtree

  /** Alias dereferencing policies (section 4.5.1.3 of RFC 4511). */
  datatype DerefAliases = NeverDerefAliases | DerefInSearching | DerefFindingBaseObj | DerefAlways

  /** The request the transport library sends on the wire. */
  datatype ProtocolRequest = ProtocolRequest(
    baseDN: string,
    scope: Scope,
    derefAliases: DerefAliases,
    sizeLimit: int,
    timeLimit: int,
    typesOnly: bool,
    filter: string,
    attributes: seq<string>,
    controls: seq<string>)

  /** Identity of one dialled transport connection. */
  type Conn = nat

  /** How the connection is dialled: plain TCP, or TLS with the verification flag. */
  datatype DialMode = Plain | Tls(insecureSkipVerify: bool)

  /** What happens on the transport, in order. */
  datatype TransportEvent =
    | Dialled(conn: Conn, url: string, mode: DialMode)
    | Bound(conn: Conn, username: string, password: string)
    | Searched(conn: Conn, request: ProtocolRequest)
    | Closed(conn: Conn)

  /** The client: bind credentials, server address and the stored searcher, if any. */
  datatype Client = Client(
    bindUsername: string,
    bindPassword: string,
    serverUrl: string,
    searcher: Option<Conn>)

  const ConnectErrorPrefix := "Cannot connect to LDAP: "
  const BindErrorPrefix := "Cannot bind to LDAP: "
  const SearchErrorPrefix := "LDAP group error: "

  /** Result of a connect attempt: the error, if any, the client afterwards, and the transport events. */
  datatype Connected = Connected(err: Option<string>, client: Client, events: seq<TransportEvent>)

  /** Result of a search: the reply or error, and the transport events. */
  datatype SearchOutcome = SearchedWith(result: Result<SearchResult, string>, events: seq<TransportEvent>)

  /** A client that holds no searcher yet. */
  function NewClient(bindUsername: string, bindPassword: string, serverUrl: string): (c: Client)
    ensures c.searcher.None?
    ensures c.bindUsername == bindUsername && c.bindPassword == bindPassword && c.serverUrl == serverUrl
  {
    Client(bindUsername, bindPassword, serverUrl, None)
  }

  /**
   * `Connect` (mode `Plain`) and `ConnectTls` (mode `Tls`): dial the client's
   * server address, then bind with the client's credentials. `dial` is the transport's dial outcome
   * (a fresh connection or an error text), `bindError` the bind outcome.
   */
  function Connect(c: Client, mode: DialMode, dial: Result<Conn, string>, bindError: Option<string>): (r: Connected)
    // a dial failure touches nothing and is reported with the connect prefix
    ensures dial.Failure? ==>
      r.err == Some(ConnectErrorPrefix + dial.error) && r.client == c && r.events == []
    // a bind failure closes the dialled connection and keeps the old searcher
    ensures dial.Success? && bindError.Some? ==>
      && r.err == Some(BindErrorPrefix + bindError.value)
      && r.client == c
      && |r.events| > 0 && r.events[|r.events| - 1] == Closed(dial.value)
    // success stores exactly the dialled connection and changes nothing else
    ensures dial.Success? && bindError.None? ==>
      r.err.None? && r.client == c.(searcher := Some(dial.value))
    // the client's own server is dialled, and the connection is bound with its own credentials
    ensures dial.Success? ==>
      |r.events| >= 2 && r.events[0] == Dialled(dial.value, c.serverUrl, mode) &&
      r.events[1] == Bound(dial.value, c.bindUsername, c.bindPassword)
    // every transport event concerns the dialled connection
    ensures forall i :: 0 <= i < |r.events| ==> dial.Success? && r.events[i].conn == dial.value
  {
    match dial
    case Failure(e) => Connected(Some(ConnectErrorPrefix + e), c, [])
    case Success(conn) =>
      var handshake := [Dialled(conn, c.serverUrl, mode), Bound(conn, c.bindUsername, c.bindPassword)];
      match bindError
      case Some(e) => Connected(Some(BindErrorPrefix + e), c, handshake + [Closed(conn)])
      case None => Connected(None, c.(searcher := Some(conn)), handshake)
  }

  /** The wire request `Search` builds from the resolver's request. */
  function ProtocolRequestFor(sr: SearchRequest): (q: ProtocolRequest)
    ensures q.baseDN == sr.baseDn && q.filter == sr.searchFilter
    ensures q.attributes == sr.attributes && q.timeLimit == sr.searchTimeout
    ensures q.scope == ScopeWholeSubtree && q.derefAliases == NeverDerefAliases
    ensures q.sizeLimit == 0 && !q.typesOnly && q.controls == []
  {
    ProtocolRequest(sr.baseDn, ScopeWholeSubtree, NeverDerefAliases, 0, sr.searchTimeout, false,
                    sr.searchFilter, sr.attributes, [])
  }

  /**
   * `Search`: one search on the stored searcher (Go dereferences a nil
   * searcher, so one must be stored). `reply` is the transport's outcome.
   */
  function Search(c: Client, sr: SearchRequest, reply: Result<SearchResult, string>): (r: SearchOutcome)
    requires c.searcher.Some?
    ensures r.events == [Searched(c.searcher.value, ProtocolRequestFor(sr))]
    ensures reply.Failure? ==> r.result == Failure(SearchErrorPrefix + reply.error)
    ensures reply.Success? ==> r.result == reply
  {
    var q := ProtocolRequestFor(sr);
    match reply
    case Failure(e) => SearchedWith(Failure(SearchErrorPrefix + e), [Searched(c.searcher.value, q)])
    case Success(res) => SearchedWith(Success(res), [Searched(c.searcher.value, q)])
  }

  /** `Close`: closes the stored searcher once; the client itself keeps it. */
  function Close(c: Client): (events: seq<TransportEvent>)
    requires c.searcher.Some?
    ensures events == [Closed(c.searcher.value)]
  {
    [Closed(c.searcher.value)]
  }

  /** The connections open after one transport event, given those open before it. */
  function Step(open: set<Conn>, event: TransportEvent): set<Conn> {
    match event
    case Dialled(conn, _, _) => open + {conn}
    case Closed(conn) => open - {conn}
    case _ => open
  }

  /** Connections left open after `events`, starting from the open set `open`. */
  function OpenAfter(open: set<Conn>, events: seq<TransportEvent>): set<Conn>
    decreases |events|
  {
    if |events| == 0 then open else OpenAfter(Step(open, events[0]), events[1..])
  }

  /** Replaying two event sequences one after the other is replaying their concatenation. */
  lemma {:induction false} OpenAfterAppend(open: set<Conn>, a: seq<TransportEvent>, b: seq<TransportEvent>)
    ensures OpenAfter(open, a + b) == OpenAfter(OpenAfter(open, a), b)
    decreases |a|
  {
    if |a| == 0 {
      assert a + b == b;
    } else {
      assert (a + b)[0] == a[0];
      assert (a + b)[1..] == a[1..] + b;
      OpenAfterAppend(Step(open, a[0]), a[1..], b);
    }
  }

  /** A search leaves the open connections as they are, and closing releases exactly the stored searcher. */
  lemma CloseReleasesSearcher(c: Client, sr: SearchRequest, reply: Result<SearchResult, string>, open: set<Conn>)
    requires c.searcher.Some?
    ensures OpenAfter(open, Search(c, sr, reply).events) == open
    ensures OpenAfter(open, Close(c)) == open - {c.searcher.value}
  {
    assert Search(c, sr, reply).events[1..] == [];
    assert Close(c)[1..] == [];
  }

  /**
   * A connect attempt leaks nothing: afterwards the only connection that can
   * have been dialled and left open is the one now stored as the searcher.
   */
  lemma ConnectLeavesOnlySearcherOpen(c: Client, mode: DialMode, dial: Result<Conn, string>,
                                      bindError: Option<string>, open: set<Conn>)
    requires dial.Success? ==> dial.value !in open
    ensures var r := Connect(c, mode, dial, bindError);
      && OpenAfter(open, r.events) - open <= (if r.err.None? then {dial.value} else {})
      && (r.err.None? ==> OpenAfter(open, r.events) == open + {dial.value})
      && (r.err.Some? ==> OpenAfter(open, r.events) == open)
  {
    var r := Connect(c, mode, dial, bindError);
    if dial.Success? {
      var conn := dial.value;
      var handshake := [Dialled(conn, c.serverUrl, mode), Bound(conn, c.bindUsername, c.bindPassword)];
      OpenAfterAppend(open, [Dialled(conn, c.serverUrl, mode)], [Bound(conn, c.bindUsername, c.bindPassword)]);
      if bindError.Some? {
        OpenAfterAppend(open, handshake, [Closed(conn)]);
        assert OpenAfter(open, handshake) == open + {conn};
        assert open + {conn} - {conn} == open;
      }
    }
  }

  /** The three error prefixes are mutually exclusive, so an error text names the step that failed. */
  lemma ErrorPrefixesDistinguishSteps(e: string)
    ensures !(HasPrefix(e, ConnectErrorPrefix) && HasPrefix(e, BindErrorPrefix))
    ensures !(HasPrefix(e, ConnectErrorPrefix) && HasPrefix(e, SearchErrorPrefix))
    ensures !(HasPrefix(e, BindErrorPrefix) && HasPrefix(e, SearchErrorPrefix))
  {
    assert ConnectErrorPrefix[0] == 'C' && ConnectErrorPrefix[7] == 'c';
    assert BindErrorPrefix[0] == 'C' && BindErrorPrefix[7] == 'b';
    assert SearchErrorPrefix[0] == 'L';
    if HasPrefix(e, ConnectErrorPrefix) {
      assert e[0] == 'C' && e[7] == 'c';
    }
    if HasPrefix(e, BindErrorPrefix) {
      assert e[0] == 'C';
    }
  }

  /**
   * The session discipline the group resolver follows (connect; search and
   * close only if connected) leaves no connection open that was dialled
   * during the session, whatever the dial, bind and search outcomes.
   */
  lemma SessionClosesWhatItOpens(c: Client, mode: DialMode, dial: Result<Conn, string>,
                                 bindError: Option<string>, sr: SearchRequest,
                                 reply: Result<SearchResult, string>, open: set<Conn>)
    requires dial.Success? ==> dial.value !in open
    ensures var cn := Connect(c, mode, dial, bindError);
      var events := if cn.err.Some? then cn.events
                    else cn.events + Search(cn.client, sr, reply).events + Close(cn.client);
      OpenAfter(open, events) == open
  {
    var cn := Connect(c, mode, dial, bindError);
    ConnectLeavesOnlySearcherOpen(c, mode, dial, bindError, open);
    if cn.err.None? {
      var conn := dial.value;
      var tail := Search(cn.client, sr, reply).events + Close(cn.client);
      assert cn.events + Search(cn.client, sr, reply).events + Close(cn.client) == cn.events + tail;
      OpenAfterAppend(open, cn.events, tail);
      var mid := OpenAfter(open, cn.events);
      assert mid == open + {conn};
      assert tail == [Searched(conn, ProtocolRequestFor(sr)), Closed(conn)];
      assert tail[1..] == [Closed(conn)];
      assert OpenAfter(mid, tail) == OpenAfter(mid, [Closed(conn)]);
      assert OpenAfter(mid, [Closed(conn)]) == OpenAfter(mid - {conn}, []);
      assert mid - {conn} == open;
    }
  }
}
