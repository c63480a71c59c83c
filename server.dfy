/**
 * The chat server's shared state and its event handlers. Node runs every
 * handler to completion on one thread, so each socket event or timer firing
 * is one method call on the `Server`. Every `socket.write` and `socket.end`
 * is recorded, in order, in the server's `outbox`.
 */
module Chat {
  import opened JsString
  import opened Framing
  import opened History
  import opened Protocol

  datatype Option<T> = None | Some(value: T)

  /** One action on a socket: a write of some text, or `socket.end()`. */
  datatype Effect = Write(to: Connection, data: string) | End(conn: Connection)

  /** The per-connection state the `'connection'` handler keeps in its
      closure: the partial-line `buffer` and the `username` (null until a
      successful LOGIN). The connection object itself stands for the socket. */
  class Connection {
    var buffer: string
    var username: Option<string>

    constructor ()
      ensures buffer == [] && username == None
    {
      buffer := [];
      username := None;
    }

    predicate LoggedIn()
      reads this
    {
      IsLoggedIn(username)
    }
  }

  /** The JavaScript truthiness of `username`: neither null nor empty. */
  predicate IsLoggedIn(username: Option<string>) {
    username.Some? && username.value != []
  }

  /** `data` sent to the socket registered under `name`, if there is one. */
  function SendTo(clients: map<string, Connection>, name: string, data: string): seq<Effect> {
    if name in clients then [Write(clients[name], data)] else []
  }

  /** The writes of sending `data` to every registered session, visited in
      registration order, which is the order the clients map iterates in. */
  function Broadcast(names: seq<string>, clients: map<string, Connection>, data: string): (w: seq<Effect>)
    ensures (forall u :: u in names ==> u in clients) ==>
              |w| == |names| && forall k :: 0 <= k < |names| ==> w[k] == Write(clients[names[k]], data)
  {
    if names == [] then []
    else Broadcast(names[..|names| - 1], clients, data) + SendTo(clients, names[|names| - 1], data)
  }

  /** The writes of a WHO reply: one `USER <u>` line per name, in order. */
  function UserList(to: Connection, names: seq<string>): (w: seq<Effect>)
    ensures |w| == |names|
    ensures forall k :: 0 <= k < |names| ==> w[k] == Write(to, UserLine(names[k]))
  {
    if names == [] then []
    else UserList(to, names[..|names| - 1]) + [Write(to, UserLine(names[|names| - 1]))]
  }

  /** WHO lists exactly the registered names: a `USER <u>` line is among
      the replies if and only if `u` is one of them. */
  lemma UserListListsExactly(to: Connection, names: seq<string>, u: string)
    ensures Write(to, UserLine(u)) in UserList(to, names) <==> u in names
  {
    var w := UserList(to, names);
    if u in names {
      var k :| 0 <= k < |names| && names[k] == u;
      assert w[k] == Write(to, UserLine(u));
    }
    if Write(to, UserLine(u)) in w {
      var k :| 0 <= k < |w| && w[k] == Write(to, UserLine(u));
      UserLineInjective(u, names[k]);
    }
  }

  lemma UserLineInjective(u: string, v: string)
    requires UserLine(u) == UserLine(v)
    ensures u == v
  {
    assert u == UserLine(u)[5..|UserLine(u)| - 1];
    assert v == UserLine(v)[5..|UserLine(v)| - 1];
  }

  /** The writes of the history replay at login: one `MSG <user> <text>` line
      per entry, oldest first. */
  function Replay(to: Connection, entries: seq<Entry>): (w: seq<Effect>)
    ensures |w| == |entries|
    ensures forall k :: 0 <= k < |entries| ==> w[k] == Write(to, MsgLine(entries[k].user, entries[k].text))
  {
    if entries == [] then []
    else
      var e := entries[|entries| - 1];
      Replay(to, entries[..|entries| - 1]) + [Write(to, MsgLine(e.user, e.text))]
  }

  /** A broadcast to names none of which is registered to `c` writes only,
      and never to `c`. */
  lemma {:induction false} BroadcastAvoids(names: seq<string>, clients: map<string, Connection>, data: string, c: Connection)
    requires forall u :: u in names ==> u in clients && clients[u] != c
    ensures forall e :: e in Broadcast(names, clients, data) ==> e.Write? && e.to != c
  {
    if names != [] {
      var init := names[..|names| - 1];
      assert forall u :: u in init ==> u in names;
      BroadcastAvoids(init, clients, data, c);
    }
  }

  predicate Distinct(s: seq<string>) {
    forall i, j :: 0 <= i < j < |s| ==> s[i] != s[j]
  }

  /** The name set with `name` deleted; the lemmas below show the remaining
      names keep their order. */
  function Without(s: seq<string>, name: string): (r: seq<string>)
    ensures forall u :: u in r <==> u in s && u != name
    ensures Distinct(s) ==> Distinct(r)
  {
    if s == [] then []
    else
      var rest := Without(s[1..], name);
      assert Distinct(s) ==> Distinct(s[1..]) && s[0] !in rest;
      (if s[0] == name then [] else [s[0]]) + rest
  }

  /** Deleting a name that is not there changes nothing. */
  lemma {:induction false} WithoutAbsent(s: seq<string>, name: string)
    requires name !in s
    ensures Without(s, name) == s
  {
    if s != [] {
      WithoutAbsent(s[1..], name);
      assert [s[0]] + s[1..] == s;
    }
  }

  /** Deleting a name that occurs once removes just that occurrence: the
      names before and after it keep their order. */
  lemma {:induction false} WithoutKeepsOrder(before: seq<string>, name: string, after: seq<string>)
    requires name !in before && name !in after
    ensures Without(before + [name] + after, name) == before + after
  {
    var s := before + [name] + after;
    if before == [] {
      assert s[1..] == after;
      WithoutAbsent(after, name);
    } else {
      assert s[1..] == before[1..] + [name] + after;
      WithoutKeepsOrder(before[1..], name, after);
      assert [before[0]] + (before[1..] + after) == before + after;
    }
  }

  /** In a set without duplicates, deleting a member is cutting out its one
      position. */
  lemma WithoutRemovesOne(s: seq<string>, name: string)
    requires Distinct(s) && name in s
    ensures exists i :: 0 <= i < |s| && s[i] == name && Without(s, name) == s[..i] + s[i + 1..]
  {
    var i :| 0 <= i < |s| && s[i] == name;
    assert s == s[..i] + [name] + s[i + 1..];
    assert name !in s[..i] by {
      forall j | 0 <= j < i ensures s[..i][j] != name { assert s[j] != s[i]; }
    }
    assert name !in s[i + 1..] by {
      forall k | i < k < |s| ensures s[k] != name { assert s[i] != s[k]; }
    }
    WithoutKeepsOrder(s[..i], name, s[i + 1..]);
  }

  /** The registry invariant: `usernames` and `clients` hold the same names,
      each at most once, and a registered name is non-empty and is the name
      its session logged in with. */
  ghost predicate Registry(usernames: seq<string>, clients: map<string, Connection>)
    reads clients.Values
  {
    && Distinct(usernames)
    && (forall u :: u in usernames <==> u in clients)
    && (forall u :: u in clients ==> u != [] && clients[u].username == Some(u))
  }

  /** A registered session is logged in under a registered name, so WHO
      lists it among the users. */
  lemma RegisteredSenderListed(usernames: seq<string>, clients: map<string, Connection>, conn: Connection)
    requires Registry(usernames, clients) && conn in clients.Values
    ensures conn.LoggedIn() && conn.username.value in usernames
    ensures Write(conn, UserLine(conn.username.value)) in UserList(conn, usernames)
  {
    var u :| u in clients && clients[u] == conn;
    UserListListsExactly(conn, usernames, u);
  }

  /** A broadcast reaches every registered session, its sender included. */
  lemma RegisteredSenderReached(usernames: seq<string>, clients: map<string, Connection>, conn: Connection, data: string)
    requires Registry(usernames, clients) && conn in clients.Values
    ensures Write(conn, data) in Broadcast(usernames, clients, data)
  {
    var u :| u in clients && clients[u] == conn;
    var k :| 0 <= k < |usernames| && usernames[k] == u;
    assert Broadcast(usernames, clients, data)[k] == Write(conn, data);
  }

  /** No registered name belongs to a session that has not logged in. */
  lemma RegisteredAreLoggedIn(usernames: seq<string>, clients: map<string, Connection>, conn: Connection)
    requires Registry(usernames, clients) && !conn.LoggedIn()
    ensures conn !in clients.Values
  {
    forall u | u in clients
      ensures clients[u] != conn
    {
      assert clients[u].LoggedIn();
    }
  }

  /** Registering a fresh name for a session that now carries it keeps the
      registry consistent. */
  lemma RegisterKeeps(usernames: seq<string>, clients: map<string, Connection>, name: string, conn: Connection)
    requires Registry(usernames, clients) && name != [] && name !in usernames
    requires conn.username == Some(name)
    ensures Registry(usernames + [name], clients[name := conn])
  {
    var us := usernames + [name];
    forall i, j | 0 <= i < j < |us|
      ensures us[i] != us[j]
    {
      if j < |usernames| {
        assert us[i] == usernames[i] && us[j] == usernames[j];
      } else {
        assert us[i] in usernames;
      }
    }
  }

  /** Removing a name keeps the registry consistent. */
  lemma UnregisterKeeps(usernames: seq<string>, clients: map<string, Connection>, name: string)
    requires Registry(usernames, clients)
    ensures Registry(Without(usernames, name), clients - {name})
  {
  }

  /** What a line can change: the shared registry, history and socket log
      of the server, and the `username` of the session the line came from. */
  datatype Snapshot = Snapshot(
    usernames: seq<string>,
    clients: map<string, Connection>,
    history: seq<Entry>,
    outbox: seq<Effect>,
    username: Option<string>)

  /** The registry is unchanged, or a session that had not logged in did so
      and its name was appended to `usernames` and mapped to `conn`. */
  predicate RegistryGrows(s: Snapshot, t: Snapshot, conn: Connection) {
    || (t.usernames == s.usernames && t.clients == s.clients)
    || (&& !IsLoggedIn(s.username) && IsLoggedIn(t.username)
        && t.usernames == s.usernames + [t.username.value]
        && t.clients == s.clients[t.username.value := conn])
  }

  /** The effect of a classified line from a session that has not logged in:
      a free name is registered, acknowledged and sent the replay of the last
      `Capacity` broadcasts; a taken name is refused and the session stays
      anonymous; any other non-blank line gets the login prompt. */
  function Welcome(s: Snapshot, conn: Connection, c: Command): (t: Snapshot)
    ensures t.history == s.history
    ensures s.outbox <= t.outbox
    ensures c.Blank? ==> t == s
    ensures !IsLoggedIn(s.username) && (c.Login? ==> c.name != []) ==> RegistryGrows(s, t, conn)
  {
    match c
    case Login(name) =>
      if name in s.usernames then
        s.(outbox := s.outbox + [Write(conn, UsernameTaken)], username := None)
      else
        s.(usernames := s.usernames + [name], clients := s.clients[name := conn],
           outbox := s.outbox + [Write(conn, Ok)] + Replay(conn, LastN(s.history, Capacity)),
           username := Some(name))
    case LoginPrompt => s.(outbox := s.outbox + [Write(conn, PleaseLogin)])
    case _ => s
  }

  /** The writes a DM from `me` produces: a refusal for oneself or an unknown
      name, otherwise the message to the target and the echo to the sender. */
  function DmWrites(s: Snapshot, conn: Connection, me: string, target: string, text: string): (w: seq<Effect>)
    ensures forall e :: e in w ==>
              e.Write? && (e.to == conn || (target != me && target in s.clients && e.to == s.clients[target]))
    ensures target != me && target in s.usernames && target in s.clients ==>
              w == [Write(s.clients[target], DmLine(me, text)), Write(conn, DmLine(target, text))]
  {
    if target == me then [Write(conn, CannotDmSelf)]
    else if target in s.usernames then
      SendTo(s.clients, target, DmLine(me, text)) + [Write(conn, DmLine(target, text))]
    else [Write(conn, UserNotFound)]
  }

  /** The effect of a classified line from the session logged in as `me`:
      the registry and the session's name never change, only a broadcast
      changes the history, and writes are only appended. */
  function Serve(s: Snapshot, conn: Connection, me: string, c: Command): (t: Snapshot)
    ensures t.usernames == s.usernames && t.clients == s.clients && t.username == s.username
    ensures s.outbox <= t.outbox
    ensures !c.Msg? ==> t.history == s.history
    ensures c.Blank? ==> t == s
  {
    match c
    case Who => s.(outbox := s.outbox + UserList(conn, s.usernames))
    case Ping => s.(outbox := s.outbox + [Write(conn, Pong)])
    case DmMalformed => s.(outbox := s.outbox + [Write(conn, InvalidDmFormat)])
    case Dm(target, text) => s.(outbox := s.outbox + DmWrites(s, conn, me, target, text))
    case Msg(text) =>
      s.(history := Record(s.history, Entry(me, text)),
         outbox := s.outbox + Broadcast(s.usernames, s.clients, MsgLine(me, text)))
    case _ => s
  }

  /** One iteration of the `'data'` handler's line loop: the session's login
      state picks which classifier and which effect apply. A blank line
      changes nothing; a logged-in session keeps its name and the registry;
      otherwise the registry at most gains this session's own name. */
  function Step(s: Snapshot, conn: Connection, line: string): (t: Snapshot)
    ensures AllWhitespace(line) ==> t == s
    ensures s.outbox <= t.outbox
    ensures IsLoggedIn(s.username) ==>
              t.username == s.username && t.usernames == s.usernames && t.clients == s.clients
    ensures RegistryGrows(s, t, conn)
  {
    if IsLoggedIn(s.username) then
      var c := Classify(line, true);
      Serve(s, conn, s.username.value, c)
    else
      var c := Classify(line, false);
      Welcome(s, conn, c)
  }

  /** The lines of one chunk, handled in order. */
  function Steps(s: Snapshot, conn: Connection, lines: seq<string>): (t: Snapshot)
    ensures s.outbox <= t.outbox
  {
    if lines == [] then s
    else Step(Steps(s, conn, lines[..|lines| - 1]), conn, lines[|lines| - 1])
  }

  /** Handling `a` and then `b` is handling `a + b`. */
  lemma {:induction false} StepsAppend(s: Snapshot, conn: Connection, a: seq<string>, b: seq<string>)
    ensures Steps(s, conn, a + b) == Steps(Steps(s, conn, a), conn, b)
    decreases |b|
  {
    if b == [] {
      assert a + b == a;
    } else {
      var b0 := b[..|b| - 1];
      assert (a + b)[..|a + b| - 1] == a + b0;
      StepsAppend(s, conn, a, b0);
    }
  }

  /** A run of blank lines changes nothing at all. */
  lemma {:induction false} StepsBlank(s: Snapshot, conn: Connection, lines: seq<string>)
    requires forall k :: 0 <= k < |lines| ==> AllWhitespace(lines[k])
    ensures Steps(s, conn, lines) == s
  {
    if lines != [] {
      StepsBlank(s, conn, lines[..|lines| - 1]);
    }
  }

  /** Over any run of lines, writes are only appended, a logged-in session
      keeps its name and the registry, and otherwise the registry at most
      gains this session's own name. */
  lemma {:induction false} StepsGrow(s: Snapshot, conn: Connection, lines: seq<string>)
    ensures var t := Steps(s, conn, lines);
            && s.outbox <= t.outbox
            && (IsLoggedIn(s.username) ==>
                  t.username == s.username && t.usernames == s.usernames && t.clients == s.clients)
            && RegistryGrows(s, t, conn)
  {
    if lines != [] {
      StepsGrow(s, conn, lines[..|lines| - 1]);
    }
  }

  /** The chunks a socket delivers may split the text anywhere: receiving
      `c1` and then `c2` leaves the same buffer and the same state as
      receiving `c1 + c2` at once. */
  lemma ReceiveInChunks(s: Snapshot, conn: Connection, buffer: string, c1: string, c2: string)
    ensures var f1 := Frame(buffer, c1);
            var f2 := Frame(f1.rest, c2);
            var f := Frame(buffer, c1 + c2);
            && f2.rest == f.rest
            && Steps(Steps(s, conn, f1.lines), conn, f2.lines) == Steps(s, conn, f.lines)
  {
    var f1 := Frame(buffer, c1);
    var f2 := Frame(f1.rest, c2);
    FrameChunking(buffer, c1, c2);
    StepsAppend(s, conn, f1.lines, f2.lines);
  }

  /** The module-level state of `src/server.js`: the `usernames` Set (a
      sequence in insertion order, which is the order JavaScript iterates it
      in), the `clients` Map, the `messageHistory` array, and the log of
      everything written to or closed on a socket. */
  class Server {
    var usernames: seq<string>
    var clients: map<string, Connection>
    var history: seq<Entry>
    var outbox: seq<Effect>

    /** The registry is consistent and the history holds at most 100 entries. */
    ghost predicate Valid()
      reads this, clients.Values
    {
      Registry(usernames, clients) && |history| <= Capacity
    }

    constructor ()
      ensures Valid()
      ensures usernames == [] && clients == map[] && history == [] && outbox == []
    {
      usernames := [];
      clients := map[];
      history := [];
      outbox := [];
    }

    /** The WHO reply: one line per registered name, in registration order. */
    method WriteUserList(to: Connection)
      modifies this`outbox
      ensures outbox == old(outbox) + UserList(to, usernames)
    {
      for i := 0 to |usernames|
        invariant outbox == old(outbox) + UserList(to, usernames[..i])
      {
        assert usernames[..i + 1][..i] == usernames[..i];
        outbox := outbox + [Write(to, UserLine(usernames[i]))];
      }
      assert usernames[..|usernames|] == usernames;
    }

    /** The replay at login: each of the last `Capacity` history entries,
        oldest first, as a broadcast line. */
    method ReplayHistory(to: Connection)
      modifies this`outbox
      ensures outbox == old(outbox) + Replay(to, LastN(history, Capacity))
    {
      var recent := LastN(history, Capacity);
      for i := 0 to |recent|
        invariant outbox == old(outbox) + Replay(to, recent[..i])
      {
        assert recent[..i + 1][..i] == recent[..i];
        outbox := outbox + [Write(to, MsgLine(recent[i].user, recent[i].text))];
      }
      assert recent[..|recent|] == recent;
    }

    /** Sends `data` to every registered session in registration order. */
    method SendToAll(data: string)
      modifies this`outbox
      ensures outbox == old(outbox) + Broadcast(usernames, clients, data)
    {
      for i := 0 to |usernames|
        invariant outbox == old(outbox) + Broadcast(usernames[..i], clients, data)
      {
        assert usernames[..i + 1][..i] == usernames[..i];
        outbox := outbox + SendTo(clients, usernames[i], data);
      }
      assert usernames[..|usernames|] == usernames;
    }

    /** The part of the state a line from `conn` can change. */
    function Snap(conn: Connection): Snapshot
      reads this, conn
    {
      Snapshot(usernames, clients, history, outbox, conn.username)
    }

    /** `LOGIN <name>` before login (`src/server.js` lines 57-73). */
    method Login(conn: Connection, name: string)
      requires Valid() && !conn.LoggedIn() && name != []
      modifies this, conn`username
      ensures Valid()
      ensures Snap(conn) == Welcome(old(Snap(conn)), conn, Command.Login(name))
    {
      RegisteredAreLoggedIn(usernames, clients, conn);
      conn.username := Some(name);
      if name in usernames {
        outbox := outbox + [Write(conn, UsernameTaken)];
        conn.username := None;
      } else {
        RegisterKeeps(usernames, clients, name, conn);
        usernames := usernames + [name];
        clients := clients[name := conn];
        outbox := outbox + [Write(conn, Ok)];
        ReplayHistory(conn);
      }
    }

    /** `DM <target> <text>` from the session logged in as `me`
        (`src/server.js` lines 96-106). */
    method DirectMessage(conn: Connection, me: string, target: string, text: string)
      requires Valid()
      modifies this`outbox
      ensures outbox == old(outbox) + DmWrites(old(Snap(conn)), conn, me, target, text)
    {
      if target == me {
        outbox := outbox + [Write(conn, CannotDmSelf)];
      } else if target in usernames {
        outbox := outbox + [Write(clients[target], DmLine(me, text))];
        outbox := outbox + [Write(conn, DmLine(target, text))];
      } else {
        outbox := outbox + [Write(conn, UserNotFound)];
      }
    }

    /** `MSG <text>` from the session logged in as `me`
        (`src/server.js` lines 112-118). */
    method BroadcastMessage(conn: Connection, me: string, text: string)
      requires Valid()
      modifies this`history, this`outbox
      ensures Valid()
      ensures Snap(conn) == Serve(old(Snap(conn)), conn, me, Command.Msg(text))
    {
      ghost var s0 := Snap(conn);
      history := Record(history, Entry(me, text));
      SendToAll(MsgLine(me, text));
      assert Snap(conn) == s0.(history := history, outbox := outbox);
    }

    /** A line read before login (`src/server.js` lines 56-76). */
    method HandleBeforeLogin(conn: Connection, c: Command)
      requires Valid() && !conn.LoggedIn()
      requires c.Blank? || c.LoginPrompt? || (c.Login? && c.name != [])
      modifies this, conn`username
      ensures Valid()
      ensures Snap(conn) == Welcome(old(Snap(conn)), conn, c)
    {
      match c
      case Login(name) =>
        Login(conn, name);
      case LoginPrompt =>
        outbox := outbox + [Write(conn, PleaseLogin)];
      case Blank =>
    }

    /** A line read after login as `me` (`src/server.js` lines 78-122). */
    method HandleAfterLogin(conn: Connection, me: string, c: Command)
      requires Valid()
      modifies this`history, this`outbox
      ensures Valid()
      ensures Snap(conn) == Serve(old(Snap(conn)), conn, me, c)
    {
      match c
      case Who =>
        WriteUserList(conn);
      case Ping =>
        outbox := outbox + [Write(conn, Pong)];
      case DmMalformed =>
        outbox := outbox + [Write(conn, InvalidDmFormat)];
      case Dm(target, text) =>
        DirectMessage(conn, me, target, text);
      case Msg(text) =>
        BroadcastMessage(conn, me, text);
      case _ =>
    }

    /** One line of the `'data'` handler, as `Step` describes it. */
    method HandleLine(conn: Connection, line: string)
      requires Valid()
      modifies this, conn`username
      ensures Valid()
      ensures Snap(conn) == Step(old(Snap(conn)), conn, line)
    {
      if !conn.LoggedIn() {
        HandleBeforeLogin(conn, Classify(line, false));
      } else {
        HandleAfterLogin(conn, conn.username.value, Classify(line, true));
      }
    }

    /** The outcome of disconnecting `name` for `reason` (`src/server.js` lines 20-32). */
    twostate predicate Disconnected(name: string, reason: string)
      reads this
    {
      && history == old(history)
      && if name !in old(clients) then
           usernames == old(usernames) && clients == old(clients) && outbox == old(outbox)
         else
           && usernames == Without(old(usernames), name)
           && clients == old(clients) - {name}
           && outbox == old(outbox) + Broadcast(usernames, clients, InfoLine(name, reason))
                                    + [End(old(clients)[name])]
    }

    /** Disconnecting a user: a no-op for a name that is not registered (so a
        second call sends no second notice); otherwise the name leaves the
        registry first, then every remaining session, and only those, is told
        `INFO <name> <reason>`, and then the leaver's socket is ended. */
    method Disconnect(name: string, reason: string)
      requires Valid()
      modifies this
      ensures Valid()
      ensures Disconnected(name, reason)
      ensures name !in usernames && name !in clients
      ensures name in old(clients) ==>
                forall k :: |old(outbox)| <= k < |outbox| - 1 ==>
                  outbox[k].Write? && outbox[k].to != old(clients)[name]
    {
      if name !in clients {
        return;
      }
      var leaving := clients[name];
      var remaining := clients - {name};
      var rest := Without(usernames, name);
      UnregisterKeeps(usernames, clients, name);
      forall u | u in rest
        ensures u in remaining && remaining[u] != leaving
      {
        assert remaining[u].username == Some(u);
      }
      usernames := rest;
      clients := remaining;
      var before := outbox;
      SendToAll(InfoLine(name, reason));
      BroadcastAvoids(rest, remaining, InfoLine(name, reason), leaving);
      outbox := outbox + [End(leaving)];
      assert outbox[|before|..|outbox| - 1] == Broadcast(rest, remaining, InfoLine(name, reason));
    }

    /** The `'data'` handler: frame the chunk, then handle each complete line
        in order. Reading never removes a user: the registry is unchanged or
        gains this session's own name, and a session that had logged in keeps
        its name. Writes are only ever appended, and a chunk of blank lines
        changes nothing but the buffer. */
    method OnData(conn: Connection, chunk: string)
      requires Valid()
      modifies this, conn
      ensures Valid()
      ensures conn.buffer == Frame(old(conn.buffer), chunk).rest
      ensures Snap(conn) == Steps(old(Snap(conn)), conn, Frame(old(conn.buffer), chunk).lines)
    {
      ghost var s0 := Snap(conn);
      ghost var f := Frame(conn.buffer, chunk);
      conn.buffer := conn.buffer + chunk;
      var lines := Split(conn.buffer, '\n');
      conn.buffer := lines[|lines| - 1];
      lines := lines[..|lines| - 1];
      assert lines == f.lines && conn.buffer == f.rest;
      assert Snap(conn) == s0;
      HandleLines(conn, lines);
    }

    /** The `'data'` handler's loop over the complete lines, in order. */
    method HandleLines(conn: Connection, lines: seq<string>)
      requires Valid()
      modifies this, conn`username
      ensures Valid()
      ensures Snap(conn) == Steps(old(Snap(conn)), conn, lines)
    {
      for i := 0 to |lines|
        invariant Valid()
        invariant Snap(conn) == Steps(old(Snap(conn)), conn, lines[..i])
      {
        assert lines[..i + 1][..i] == lines[..i];
        HandleLine(conn, lines[i]);
      }
      assert lines[..|lines|] == lines;
    }

    /** The `'end'` handler: a logged-in session is disconnected with reason
        `disconnected`; otherwise only a timer is cleared. */
    method OnEnd(conn: Connection)
      requires Valid()
      modifies this
      ensures Valid()
      ensures conn.LoggedIn() ==> Disconnected(conn.username.value, ReasonDisconnected)
      ensures !conn.LoggedIn() ==> usernames == old(usernames) && clients == old(clients)
                                   && history == old(history) && outbox == old(outbox)
    {
      if conn.LoggedIn() {
        Disconnect(conn.username.value, ReasonDisconnected);
      }
    }

    /** The `'error'` handler: a logged-in session is disconnected with reason
        `error`; otherwise the socket is ended. */
    method OnError(conn: Connection)
      requires Valid()
      modifies this
      ensures Valid()
      ensures conn.LoggedIn() ==> Disconnected(conn.username.value, ReasonError)
      ensures !conn.LoggedIn() ==> usernames == old(usernames) && clients == old(clients)
                                   && history == old(history) && outbox == old(outbox) + [End(conn)]
    {
      if conn.LoggedIn() {
        Disconnect(conn.username.value, ReasonError);
      } else {
        outbox := outbox + [End(conn)];
      }
    }

    /** The timer armed on connection: ends a socket that never logged in. */
    method InitialTimerFired(conn: Connection)
      requires Valid()
      modifies this`outbox
      ensures Valid()
      ensures outbox == old(outbox) + (if conn.LoggedIn() then [] else [End(conn)])
    {
      if !conn.LoggedIn() {
        outbox := outbox + [End(conn)];
      }
    }

    /** The timer re-armed on every non-blank line: disconnects a logged-in
        session with reason `idle timeout`, and does nothing before login. */
    method LineTimerFired(conn: Connection)
      requires Valid()
      modifies this
      ensures Valid()
      ensures conn.LoggedIn() ==> Disconnected(conn.username.value, ReasonIdleTimeout)
      ensures !conn.LoggedIn() ==> usernames == old(usernames) && clients == old(clients)
                                   && history == old(history) && outbox == old(outbox)
    {
      if conn.LoggedIn() {
        Disconnect(conn.username.value, ReasonIdleTimeout);
      }
    }

    /** The timer armed by `resetIdleTimeout(name)`: disconnects `name` with
        reason `idle timeout`. */
    method SessionTimerFired(name: string)
      requires Valid()
      modifies this
      ensures Valid()
      ensures Disconnected(name, ReasonIdleTimeout)
    {
      Disconnect(name, ReasonIdleTimeout);
    }
  }
}
