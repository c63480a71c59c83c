/**
 * The command language of the chat protocol: how one framed line is read,
 * before any state is consulted. Which branch of the `'data'` handler runs
 * depends only on the line and on whether the session has logged in.
 */
module Protocol {
  import opened JsString

  // The server's replies and notices, each one `socket.write` including its newline.
  const Ok := "OK\n"
  const UsernameTaken := "ERR username-taken\n"
  const InvalidDmFormat := "ERR invalid-dm-format\n"
  const CannotDmSelf := "ERR cannot-dm-self\n"
  const UserNotFound := "ERR user-not-found\n"
  const Pong := "PONG\n"
  const PleaseLogin := "Please login first with LOGIN <username>\n"

  function UserLine(user: string): string { "USER " + user + "\n" }
  function MsgLine(user: string, text: string): string { "MSG " + user + " " + text + "\n" }
  function DmLine(user: string, text: string): string { "DM " + user + " " + text + "\n" }
  function InfoLine(user: string, reason: string): string { "INFO " + user + " " + reason + "\n" }

  // The reasons a disconnect notice gives.
  const ReasonDisconnected := "disconnected"
  const ReasonIdleTimeout := "idle timeout"
  const ReasonError := "error"

  /** What one line asks for. */
  datatype Command =
    | Blank                              // empty after trimming: skipped
    | LoginPrompt                        // before login, anything but `LOGIN `
    | Login(name: string)                // `LOGIN <name>` before login
    | Who                                // `WHO`
    | Ping                               // `PING`
    | DmMalformed                        // `DM ` without a space-separated second piece
    | DmEmpty                            // `DM ` whose text is blank
    | Dm(target: string, text: string)   // `DM <target> <text>`
    | MsgEmpty                           // `MSG ` whose text is blank
    | Msg(text: string)                  // `MSG <text>`
    | Unknown                            // any other line after login: only logged

  /** Parses what follows `DM ` once trimmed. It is cut at the first two
      single spaces: the target is the first piece trimmed, and the text is
      the second piece with its whitespace normalised. Anything after a
      second space is dropped. */
  function ParseDm(rest: string): (c: Command)
    ensures c.DmMalformed? || c.DmEmpty? || c.Dm?
    ensures c.DmMalformed? <==> ' ' !in rest
    ensures |Split(rest, ' ')| >= 2 ==> (c.DmEmpty? <==> AllWhitespace(Split(rest, ' ')[1]))
    ensures c.Dm? ==> ' ' !in c.target && Trimmed(c.target) && c.text != [] && Normalized(c.text)
    ensures c.Dm? && Trimmed(rest) ==> c.target != []
    ensures c.Dm? && Trimmed(rest) ==>
              exists pad, tail :: ' ' !in pad && AllWhitespace(pad) && rest == c.target + pad + " " + tail
  {
    var parts := SplitLimit(rest, ' ', 2);
    SplitSingle(rest, ' ');
    if |parts| < 2 then DmMalformed
    else
      var target := Trim(parts[0]);
      var text := NormalizeText(parts[1]);
      assert ' ' !in parts[0];
      FirstPieceShape(rest);
      if text == [] then DmEmpty else Dm(target, text)
  }

  /** In a trimmed line holding a space, the piece before the first space
      starts with a visible character, so trimming it keeps a non-empty
      prefix and drops only whitespace that is not a space. */
  lemma FirstPieceShape(rest: string)
    requires ' ' in rest
    ensures Trimmed(rest) ==>
              var p0 := Split(rest, ' ')[0];
              && Trim(p0) != []
              && exists pad, tail :: ' ' !in pad && AllWhitespace(pad) && rest == Trim(p0) + pad + " " + tail
  {
    if !Trimmed(rest) {
      return;
    }
    var parts := Split(rest, ' ');
    var p0 := parts[0];
    SplitSingle(rest, ' ');
    JoinConcat([p0], parts[1..], ' ');
    assert [p0] + parts[1..] == parts;
    var tail := Join(parts[1..], ' ');
    assert rest == p0 + [' '] + tail;
    assert p0 != [];
    assert p0[0] == rest[0];
    TrimVisibleStart(p0);
    var r := Trim(p0);
    var pad := p0[|r|..];
    NotInSuffix(p0, |r|, ' ');
    assert rest == r + pad + " " + tail;
  }

  /** The name taken from a `LOGIN ` line is never empty and never padded,
      and it is exactly what follows `LOGIN ` and any further whitespace. */
  lemma LoginName(t: string)
    requires Trimmed(t) && t != [] && StartsWith(t, "LOGIN ")
    ensures Trim(Slice(t, 6)) != [] && Trimmed(Trim(Slice(t, 6)))
    ensures exists pad :: AllWhitespace(pad) && t == "LOGIN " + pad + Trim(Slice(t, 6))
  {
    assert |t| > 6 by {
      assert t[..6] == "LOGIN ";
      assert t[5] == ' ';
    }
    assert Slice(t, 6) == t[6..];
    assert t[6..][|t| - 7] == t[|t| - 1];
    TrimVisibleEnd(t[6..]);
    SplitOffPadding(t, 6);
  }

  /** The dispatcher's reading of a line: blank after trimming, or a command
      read by the login-state dependent classifier (`src/server.js` lines
      50-51 and 56). */
  function Classify(line: string, loggedIn: bool): (c: Command)
    ensures c.Blank? <==> AllWhitespace(line)
    ensures !loggedIn ==> c.Blank? || c.LoginPrompt? || c.Login?
    ensures loggedIn ==> !c.LoginPrompt? && !c.Login?
    ensures c.Login? ==> c.name != [] && Trimmed(c.name)
    ensures c.Dm? ==> c.target != [] && ' ' !in c.target && Trimmed(c.target)
    ensures c.Dm? ==> c.text != [] && Normalized(c.text)
    ensures c.Msg? ==> c.text != [] && Normalized(c.text)
  {
    var t := Trim(line);
    TrimEmpty(line);
    if t == [] then Blank
    else if !loggedIn then ClassifyBeforeLogin(t)
    else ClassifyAfterLogin(t)
  }

  /** A non-blank trimmed line before login (`src/server.js` lines 57-76). */
  function ClassifyBeforeLogin(t: string): (c: Command)
    requires Trimmed(t) && t != []
    ensures c.LoginPrompt? || c.Login?
    ensures c.Login? <==> StartsWith(t, "LOGIN ")
    ensures c.Login? ==> c.name != [] && Trimmed(c.name)
    ensures c.Login? ==> exists pad :: AllWhitespace(pad) && t == "LOGIN " + pad + c.name
  {
    if StartsWith(t, "LOGIN ") then LoginName(t); Login(Trim(Slice(t, 6)))
    else LoginPrompt
  }

  /** A non-blank trimmed line after login (`src/server.js` lines 78-122). */
  function ClassifyAfterLogin(t: string): (c: Command)
    requires Trimmed(t) && t != []
    ensures !c.Blank? && !c.LoginPrompt? && !c.Login?
    ensures c.Who? <==> t == "WHO"
    ensures c.Ping? <==> t == "PING"
    ensures (c.DmMalformed? || c.DmEmpty? || c.Dm?) <==> StartsWith(t, "DM ")
    ensures (c.MsgEmpty? || c.Msg?) <==> StartsWith(t, "MSG ")
    ensures c.Unknown? <==>
              t != "WHO" && t != "PING" && !StartsWith(t, "DM ") && !StartsWith(t, "MSG ")
    ensures StartsWith(t, "DM ") ==> c == ParseDm(Trim(Slice(t, 3)))
    ensures StartsWith(t, "MSG ") ==> (c.MsgEmpty? <==> AllWhitespace(Slice(t, 4)))
    ensures c.Dm? ==> c.target != [] && ' ' !in c.target && Trimmed(c.target)
    ensures c.Dm? ==> c.text != [] && Normalized(c.text)
    ensures c.Msg? ==> c.text != [] && Normalized(c.text)
  {
    CommandsExclusive(t);
    if t == "WHO" then Who
    else if t == "PING" then Ping
    else if StartsWith(t, "DM ") then ParseDm(Trim(Slice(t, 3)))
    else if StartsWith(t, "MSG ") then
      var text := NormalizeText(Slice(t, 4));
      if text == [] then MsgEmpty else Msg(text)
    else Unknown
  }

  /** The command keywords rule each other out: a line starting with `DM `
      is neither `WHO`, `PING` nor a MSG line, and a MSG line is neither `WHO`
      nor `PING`. */
  lemma CommandsExclusive(t: string)
    ensures StartsWith(t, "DM ") ==> t != "WHO" && t != "PING" && !StartsWith(t, "MSG ")
    ensures StartsWith(t, "MSG ") ==> t != "WHO" && t != "PING"
  {
    if StartsWith(t, "DM ") {
      assert t[0] == 'D';
      assert "WHO"[0] == 'W' && "PING"[0] == 'P' && "MSG "[0] == 'M';
    }
    if StartsWith(t, "MSG ") {
      assert t[0] == 'M';
      assert "WHO"[0] == 'W' && "PING"[0] == 'P';
    }
  }

  /** The DM text is only the second single-space-separated piece: whatever
      follows a second space is ignored. */
  lemma DmTextStopsAtSecondSpace(target: string, word: string, more: string)
    requires ' ' !in target && ' ' !in word
    ensures ParseDm(target + " " + word + " " + more) == ParseDm(target + " " + word)
  {
    SplitThreePieces(target, word, more);
    SplitTwoPieces(target, word);
    assert SplitLimit(target + " " + word + " " + more, ' ', 2)
        == SplitLimit(target + " " + word, ' ', 2);
  }

  lemma SplitThreePieces(target: string, word: string, more: string)
    requires ' ' !in target && ' ' !in word
    ensures Split(target + " " + word + " " + more, ' ')[..2] == [target, word]
  {
    SplitAtSep(word, more, ' ');
    assert target + " " + word + " " + more == target + [' '] + (word + [' '] + more);
    SplitAtSep(target, word + [' '] + more, ' ');
  }

  lemma SplitTwoPieces(target: string, word: string)
    requires ' ' !in target && ' ' !in word
    ensures Split(target + " " + word, ' ') == [target, word]
  {
    SplitSingle(word, ' ');
    assert target + " " + word == target + [' '] + word;
    SplitAtSep(target, word, ' ');
  }

  /** A MSG line is broadcast with its words intact: the words that follow
      `MSG `, joined by single spaces. */
  lemma MsgKeepsWords(line: string)
    requires Classify(line, true).Msg?
    ensures StartsWith(Trim(line), "MSG ")
    ensures Classify(line, true).text == Join(Words(Slice(Trim(line), 4)), ' ')
  {
    var t := Trim(line);
    assert Classify(line, true) == ClassifyAfterLogin(t);
    assert t != "WHO" && t != "PING" && !StartsWith(t, "DM ");
    assert StartsWith(t, "MSG ");
    assert Classify(line, true) == Msg(NormalizeText(Slice(t, 4)));
    NormalizeIsJoinedWords(Slice(t, 4));
  }

  /** A DM carries the words of the second space-separated piece, joined by
      single spaces. */
  lemma DmKeepsWords(rest: string)
    requires ParseDm(rest).Dm?
    ensures ParseDm(rest).text == Join(Words(SplitLimit(rest, ' ', 2)[1]), ' ')
  {
    NormalizeIsJoinedWords(SplitLimit(rest, ' ', 2)[1]);
  }
}
