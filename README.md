# Newline-delimited chat server, modelled in Dafny

This project models `src/server.js`, a chat server over TCP for a
line-oriented protocol. A client sends `LOGIN <name>` and then can send
`WHO`, `PING`, `DM <target> <text>` and `MSG <text>`. The server keeps three
pieces of shared state: the `usernames` set and the `clients` map, which
must hold the same names, and a history capped at 100 `MSG` broadcasts. A
new login is replayed that history. A session ends through its socket's
`'end'` or `'error'` event or an idle timer, and the remaining sessions are
then told `INFO <name> <reason>`.

The project has five modules:

- `JsString` (`strings.dfy`): the JavaScript string builtins the server
  uses, with their exact behaviour. These are `trim` (with the ECMAScript
  whitespace set), `startsWith`, `slice`, `split(sep)`, `split(sep, 2)` and
  `replace(/\s+/g, ' ')`.
- `Framing` (`framing.dfy`): how the `'data'` handler turns chunks into
  lines.
- `History` (`history.dfy`): the bounded message history.
- `Protocol` (`protocol.dfy`): the reply strings, and the classification of
  one line into a command.
- `Chat` (`server.dfy`): the `Server` and `Connection` classes and their
  event handlers.

Node runs each handler to completion on one thread, so each socket event
and each timer firing is one method call on a `Server`. Every
`socket.write(data)` and every `socket.end()` is appended to the server's
`outbox`, as `Write(conn, data)` and `End(conn)`. JavaScript iterates a
`Set` and a `Map` in insertion order. For that reason `usernames` is an
ordered sequence, and a broadcast over `clients` visits the names in
`usernames` order.

## Model

| member | source | states |
|---|---|---|
| JsString.IsWhitespace | src/server.js:50 | the characters `trim` removes and `\s` matches: the ECMAScript WhiteSpace and LineTerminator characters |
| JsString.TrimStart | src/server.js:50 | the result is a suffix of the input, everything dropped is whitespace, and the result does not start with whitespace |
| JsString.TrimEnd | src/server.js:50 | the result is a prefix of the input, everything dropped is whitespace, and the result does not end with whitespace |
| JsString.Trim | src/server.js:50 | the result is the input with its leading and trailing whitespace removed, and neither of its ends is whitespace |
| JsString.TrimKeepsVisible | src/server.js:50 | trimming removes only whitespace: the non-whitespace characters are kept, in order |
| JsString.TrimEmpty | src/server.js:50-51 | a line trims to the empty string exactly when it is all whitespace, which is when the loop skips it |
| JsString.StartsWith | src/server.js:57 | `startsWith(p)` holds when the string is at least as long as `p` and begins with exactly its characters |
| JsString.StartsWithIsPrefix | src/server.js:86 | a string starts with `p` exactly when it is `p` followed by some tail |
| JsString.Slice | src/server.js:58 | `slice(k)` keeps what follows the first `k` characters, or nothing when the string is shorter |
| JsString.Split | src/server.js:46 | `split` yields at least one piece, no piece contains the separator, and joining the pieces with the separator gives back the input |
| JsString.SplitJoin | src/server.js:46 | splitting the join of separator-free pieces gives back those pieces |
| JsString.SplitSingle | src/server.js:87-88 | `split` yields one piece exactly when the separator does not occur, and that piece is the whole string |
| JsString.SplitLimit | src/server.js:87 | `split(sep, n)` yields the first `n` pieces of the full split, or all of them when there are fewer |
| JsString.CollapseWhitespace | src/server.js:94 | `replace(/\s+/g, ' ')` leaves no two adjacent whitespace characters and only plain spaces, keeps every other character in order, and keeps emptiness and a leading whitespace character |
| JsString.CollapseKeepsLastEnd | src/server.js:94 | `replace(/\s+/g, ' ')` keeps a trailing whitespace run as one space: a non-empty result ends in whitespace exactly when the input does |
| JsString.NormalizeText | src/server.js:93-94 | trim, collapse, trim: the result has no padding, no whitespace run and only plain spaces; it keeps the non-whitespace characters in order; it is empty exactly when the input is all whitespace |
| JsString.Words | src/server.js:94 | the words of a string are its maximal runs of non-whitespace characters; a string that starts with a visible character has at least one word |
| JsString.WordsTrim | src/server.js:93 | trimming removes no word |
| JsString.WordsCollapse | src/server.js:94 | `replace(/\s+/g, ' ')` neither removes, splits nor merges any word |
| JsString.SpacedIsJoinedWords | src/server.js:94 | a string with no padding, no whitespace run and only plain spaces is its words joined by single spaces |
| JsString.NormalizeIsJoinedWords | src/server.js:93-94 | the clean-up of DM and MSG text gives exactly the words of the input joined by single spaces |
| JsString.NormalizeIdempotent | src/server.js:109-110 | normalizing already normalized text changes nothing |
| Framing.Frame | src/server.js:45-47 | nothing is lost: the released lines and the new buffer, joined with newlines, are the old buffer followed by the chunk; neither the lines nor the new buffer contain a newline |
| Framing.FrameUnique | src/server.js:45-47 | any split of the text into newline-free lines and a newline-free rest that joins back to it is the framing of that text |
| Framing.FrameChunking | src/server.js:45-47 | feeding `c1` and then `c2` releases the same lines, in the same order, and keeps the same buffer as feeding `c1 + c2` at once |
| History.LastN | src/server.js:67 | `slice(-n)` has length `min(|s|, n)` |
| History.LastNIsSuffix | src/server.js:67 | `slice(-n)` keeps the last elements of the array, in their order |
| History.Record | src/server.js:113-114 | after push and shift the history stays within 100 entries, its last entry is the new message, and it is the last 100 of the old history plus that message |
| History.RecordAll | src/server.js:113-114 | recording any number of messages keeps the history within 100 entries |
| History.RecordAllKeepsLatest | src/server.js:113-114 | after any run of broadcasts the history is the last 100 of the old history followed by those broadcasts, in arrival order, with the oldest evicted first |
| History.HistoryOfBroadcasts | src/server.js:7 | starting from the empty history, it holds the last `min(n, 100)` broadcasts |
| History.ReplayIsWholeHistory | src/server.js:67 | the login replay `slice(-100)` of a history of at most 100 entries is the whole history |
| Protocol.ParseDm | src/server.js:87-95 | the result is malformed exactly when the trimmed rest holds no space; when it holds one, the DM is dropped as empty exactly when the piece after the first space is all whitespace; a DM's target has no space and no padding, and of a trimmed rest it is the non-empty text before the first space, less the whitespace padding in front of that space; its text is non-empty and normalized |
| Protocol.FirstPieceShape | src/server.js:87-92 | in a trimmed line that holds a space, the piece before the first space is not blank, and the line is that piece trimmed, then space-free whitespace padding, then the space and the rest |
| Protocol.DmTextStopsAtSecondSpace | src/server.js:87 | whatever follows a second single space is dropped from the DM text |
| Protocol.LoginName | src/server.js:57-58 | the name taken from a trimmed `LOGIN ` line is non-empty and has no padding, and the line is `LOGIN `, whitespace, then that name |
| Protocol.Classify | src/server.js:50-56 | a line is blank exactly when it is all whitespace; before login only a prompt or a login can result, and after login neither can; login names are non-empty and DM and MSG texts are non-empty and normalized |
| Protocol.ClassifyBeforeLogin | src/server.js:57-76 | a line is a login exactly when it starts with `LOGIN `, and is otherwise a prompt; the login name is non-empty and unpadded, and it is exactly what follows `LOGIN ` and any further whitespace |
| Protocol.ClassifyAfterLogin | src/server.js:78-122 | after login a line is `WHO`, `PING`, a DM command or a MSG command exactly when it equals `WHO` or `PING` or starts with `DM ` or `MSG `, and is unknown otherwise; no line is read as a prompt or a login; a DM line is read as `ParseDm` of its trimmed rest; a MSG line is dropped as empty exactly when all that follows `MSG ` is whitespace; DM targets are non-empty, space-free and unpadded; DM and MSG texts are non-empty and normalized |
| Protocol.CommandsExclusive | src/server.js:78-108 | the keywords rule each other out, so the order of the tests decides nothing |
| Protocol.MsgKeepsWords | src/server.js:108-110 | a broadcast MSG text is the words that follow `MSG `, joined by single spaces |
| Protocol.DmKeepsWords | src/server.js:87-94 | a DM text is the words of the second single-space piece, joined by single spaces |
| Protocol.UserLine | src/server.js:80 | the WHO reply template `USER <u>` and a newline |
| Protocol.MsgLine | src/server.js:115 | the broadcast and replay template `MSG <user> <text>` and a newline (also line 68) |
| Protocol.DmLine | src/server.js:101-103 | the DM template `DM <user> <text>` and a newline, used for the target and for the echo |
| Protocol.InfoLine | src/server.js:26 | the disconnect notice template `INFO <user> <reason>` and a newline |
| Chat.IsLoggedIn | src/server.js:56 | the JavaScript truthiness of `username`: null and the empty string both count as logged out (the same test at lines 54, 127 and 136) |
| Chat.Connection.LoggedIn | src/server.js:54-56 | a connection is logged in when its `username` is truthy |
| Chat.Broadcast | src/server.js:116-118 | one write to each registered name, in registration order, each to that name's socket |
| Chat.BroadcastAvoids | src/server.js:26-29 | a broadcast over names none of which is registered to `c` writes nothing to `c` |
| Chat.UserList | src/server.js:79-81 | one `USER <u>` write per name, in order, all to the asking socket |
| Chat.UserListListsExactly | src/server.js:78-81 | a `USER <u>` line is among the WHO replies if and only if `u` is registered |
| Chat.RegisteredSenderListed | src/server.js:78-81 | a registered session is logged in under a registered name, so WHO lists the sender too, while it is registered |
| Chat.RegisteredSenderReached | src/server.js:115-118 | a broadcast writes to every registered session, so the sender gets its own MSG, while it is registered |
| Chat.UserLineInjective | src/server.js:80 | two names with the same `USER` line are the same name |
| Chat.Replay | src/server.js:67-69 | one `MSG <user> <text>` write per history entry, oldest first |
| Chat.Without | src/server.js:23 | `delete` removes exactly the given name and keeps the others distinct |
| Chat.WithoutAbsent | src/server.js:23 | deleting a name that is not in the set changes nothing |
| Chat.WithoutKeepsOrder | src/server.js:23 | deleting a name that occurs once leaves the names before it and after it in their order |
| Chat.WithoutRemovesOne | src/server.js:23 | in a set without duplicates, deleting a member cuts out exactly its one position |
| Chat.Registry | src/server.js:5-6 | the invariant the registry keeps: `usernames` and `clients` hold the same names, each once, each non-empty and belonging to the session that logged in with it |
| Chat.RegisteredAreLoggedIn | src/server.js:56-64 | a session that has not logged in is not registered under any name |
| Chat.RegisterKeeps | src/server.js:62-63 | adding a fresh name to both `usernames` and `clients` keeps them in step |
| Chat.UnregisterKeeps | src/server.js:23-24 | deleting a name from both `usernames` and `clients` keeps them in step |
| Chat.Welcome | src/server.js:56-76 | a line before login never changes the history and only appends writes; a blank line changes nothing; a session that has not logged in either leaves the registry as it was or joins it under its own name |
| Chat.DmWrites | src/server.js:96-106 | a DM writes only to the sender or to the target's socket, and never to the target when it is the sender; to a registered other user it writes `DM <me> <text>` to the target, then `DM <target> <text>` to the sender |
| Chat.Serve | src/server.js:78-122 | a line after login never changes the registry or the session's name, only appends writes, and only a MSG changes the history; a blank line changes nothing |
| Chat.Step | src/server.js:50-123 | one line: a blank line changes nothing; writes are only appended; a logged-in session keeps its name and the registry; otherwise the registry is unchanged or gains this session's own name |
| Chat.Steps | src/server.js:49-124 | the lines are handled one after the other, in order, and writes are only appended |
| Chat.StepsAppend | src/server.js:49-124 | handling lines `a` and then `b` is handling `a + b` |
| Chat.StepsBlank | src/server.js:49-51 | a run of blank lines changes nothing |
| Chat.StepsGrow | src/server.js:49-124 | over any run of lines writes are only appended, a logged-in session keeps its name and the registry, and otherwise the registry at most gains this session's own name |
| Chat.ReceiveInChunks | src/server.js:44-125 | receiving `c1` and then `c2` leaves the same buffer and the same server and session state as receiving `c1 + c2` at once |
| Chat.Connection.constructor | src/server.js:37-38 | a connection starts with an empty buffer and no name |
| Chat.Server.Valid | src/server.js:5-7 | the registry invariant and the 100-entry bound on the history (lines 113-114) |
| Chat.Server.constructor | src/server.js:5-7 | `Valid()` holds at the start: the server starts with no names, no clients and an empty history |
| Chat.Server.WriteUserList | src/server.js:79-81 | WHO's loop appends exactly the `UserList` of the registered names |
| Chat.Server.ReplayHistory | src/server.js:67-69 | the login loop appends exactly the `Replay` of the last 100 entries |
| Chat.Server.SendToAll | src/server.js:115-118 | the loop over `clients` appends exactly the `Broadcast` to the registered names |
| Chat.Server.Login | src/server.js:57-73 | `Valid()` is kept and the new state is `Welcome` of the old one for the login: a taken name gets `ERR username-taken` and no other change, and the session stays logged out; a free name is registered in both `usernames` and `clients`, then `OK` and the replay of the last 100 entries are written |
| Chat.Server.DirectMessage | src/server.js:96-106 | the writes appended are exactly `DmWrites`: to itself `ERR cannot-dm-self`; to a registered target `DM <me> <text>` to the target, then `DM <target> <text>` to the sender; otherwise `ERR user-not-found` |
| Chat.Server.BroadcastMessage | src/server.js:112-118 | `Valid()` is kept and the new state is `Serve` of the old one for the MSG: the message is recorded in the history, then `MSG <me> <text>` is written to every registered session, the sender too while it is registered |
| Chat.Server.HandleBeforeLogin | src/server.js:56-76 | `Valid()` is kept and the new state is `Welcome` of the old one: a login, a prompt (only the prompt is written) or blank (nothing changes) |
| Chat.Server.HandleAfterLogin | src/server.js:77-122 | `Valid()` is kept and the new state is `Serve` of the old one: WHO writes the user list, PING writes `PONG`, a malformed DM writes `ERR invalid-dm-format`, a DM writes `DmWrites`, a MSG is recorded and broadcast, and a DM with blank text, an empty MSG and an unknown command change nothing |
| Chat.Server.HandleLine | src/server.js:49-123 | `Valid()` is kept and the new state is `Step` of the old one for the line |
| Chat.Server.HandleLines | src/server.js:49-124 | `Valid()` is kept and the new state is `Steps` of the old one: each line handled in order |
| Chat.Server.Disconnect | src/server.js:20-32 | `Valid()` is kept; an unregistered name changes nothing, so a second call sends no second notice; otherwise the name leaves both `usernames` and `clients`, every remaining session gets `INFO <name> <reason>` and the leaver gets none, and the leaver's socket is then ended |
| Chat.Server.OnData | src/server.js:44-125 | `Valid()` is kept; the new buffer is the framing's rest; the new state is `Steps` of the old one over the framing's lines, in order, so `StepsGrow`, `StepsBlank` and `ReceiveInChunks` apply to it |
| Chat.Server.OnEnd | src/server.js:126-133 | `Valid()` is kept; a logged-in session is disconnected with reason `disconnected`; otherwise nothing changes |
| Chat.Server.OnError | src/server.js:134-138 | `Valid()` is kept; a logged-in session is disconnected with reason `error`; otherwise the socket is ended |
| Chat.Server.InitialTimerFired | src/server.js:39-41 | `Valid()` is kept; the connection timer ends a socket that never logged in, and does nothing otherwise |
| Chat.Server.LineTimerFired | src/server.js:52-55 | `Valid()` is kept; the per-line timer disconnects a logged-in session with reason `idle timeout` |
| Chat.Server.SessionTimerFired | src/server.js:14-16 | `Valid()` is kept; the timer armed by `resetIdleTimeout` disconnects its name with reason `idle timeout` |

## Left out

- Timers: `setTimeout`, `clearTimeout`, `IDLE_TIMEOUT` and the bookkeeping of timer handles in `client.timeout` and `socket.userTimeout` (lines 3, 9-18, 25, 39-42, 52-55, 70, 71, 82, 85, 107, 119, 130). Instead, the three timer callbacks are events the environment may fire at any time: `InitialTimerFired`, `LineTimerFired` and `SessionTimerFired`. The model does not capture which timer is armed or cancelled when, so it allows firings that the real clears would prevent.
- The network: `net.createServer`, `server.listen`, `server.on('error')`, the SIGINT shutdown and `setEncoding('utf8')` (lines 1-4, 36, 140-151). Sockets become `Connection` objects, and a write or an end becomes an entry in the outbox. Delivery, buffering and backpressure are not modelled.
- `console.log` output (lines 31, 35, 72, 121, 132, 135). It is I/O only and affects no state.
- `socket.username` (line 65). It is written once and never read.
- The `{socket, timeout}` record that `clients` stores. It stands for the `Connection` itself, and its `timeout` is timer state.
- Sockets after `socket.end()`. The source keeps the closure's `username` after a disconnect, and nothing in it stops a later `'data'` event. The model likewise lets such a session keep sending as the name it logged in with: it may broadcast, DM and list users while unregistered, and it is then neither listed by WHO nor sent broadcasts. Its later `'end'`, `'error'` or line-timer firing (lines 54, 127-128, 136) disconnects its old name, and if another session has since logged in under that name, that other session is removed from the registry and its socket is ended. The model reproduces this too. A closed flag is not modelled because the source has none.
- `HandleAfterLogin`: an unknown command is modelled as writing nothing. Its `console.log` is not modelled.
- Unicode: characters are Dafny `char` values. `setEncoding('utf8')` decoding and UTF-16 surrogate pairs are not modelled.
