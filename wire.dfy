/** What goes over the connection: the CRLF line framing in both
    directions, the `nick!user@host` identity that prefixes relayed
    messages, and the numeric replies the server sends. */
module Wire {
  import opened Wrappers
  import opened Text
  import opened Protocol

  // ---------------------------------------------------------------------
  // Framing
  // ---------------------------------------------------------------------

  /** `encode`: one outgoing message, terminated by CRLF. */
  function Encode(message: string): (r: string)
    ensures |r| == |message| + 2 && r[..|message|] == message && r[|message|..] == "\r\n"
  {
    message + "\r\n"
  }

  /** The commands one line of a received buffer yields: none for a blank
      line or one that does not parse, the parsed command otherwise. */
  function LineCommand(line: string): (r: seq<Command>)
    ensures |r| <= 1 && forall k | 0 <= k < |r| :: WellFormed(r[k])
  {
    if IsBlank(line) then []
    else match Parse(line)
      case Ok(cmd) => [cmd]
      case Err(_) => []
  }

  /** The commands a sequence of lines yields, in order. */
  function Dispatched(lines: seq<string>): (r: seq<Command>)
    ensures |r| <= |lines| && forall k | 0 <= k < |r| :: WellFormed(r[k])
  {
    if lines == [] then []
    else Dispatched(lines[..|lines| - 1]) + LineCommand(lines[|lines| - 1])
  }

  /** One more line adds its own commands at the end. */
  lemma DispatchedNext(lines: seq<string>, i: nat)
    requires i < |lines|
    ensures Dispatched(lines[..i + 1]) == Dispatched(lines[..i]) + LineCommand(lines[i])
  {
    assert lines[..i + 1][..i] == lines[..i];
  }

  /** The lines of a received buffer: stripped, then cut at every CRLF. */
  function Lines(text: string): (r: seq<string>)
    ensures |r| >= 1
  {
    SplitSep(Strip(text), "\r\n")
  }

  /** `handle`: the commands a received buffer is dispatched as. */
  function Commands(text: string): seq<Command>
  {
    Dispatched(Lines(text))
  }

  /** A well-formed command, rendered and framed by `encode`, is received
      as exactly that command, provided its content does not end in
      whitespace (the strip in `handle` would drop it). */
  lemma FramedRoundTrip(cmd: Command)
    requires WellFormed(cmd) && EndsSolid(cmd.content)
    ensures Commands(Encode(Format(cmd))) == [cmd]
  {
    var f := Format(cmd);
    NoNewlineAtEnd(cmd);
    FirstCharOfFormat(cmd);
    StripTrailingBlank(f, "\r\n");
    FormatNoNewline(cmd);
    SplitWithoutSeparator(f, "\r\n");
    FormatRoundTrip(cmd);
    assert Lines(Encode(f)) == [f];
    assert !IsBlank(f);
  }

  /** A buffer of whitespace dispatches nothing. */
  lemma BlankBufferIgnored(text: string)
    requires IsBlank(text)
    ensures Commands(text) == []
  {
    assert Strip(text) == [];
    SplitWithoutSeparator([], "\r\n");
    assert Lines(text) == [""];
  }

  // ---------------------------------------------------------------------
  // Identities
  // ---------------------------------------------------------------------

  /** `compute_id`: `nick!user@host`. */
  function ComputeId(nick: string, user: string, host: string): (r: string)
    ensures |r| == |nick| + |user| + |host| + 2
  {
    nick + "!" + user + "@" + host
  }

  /** Cutting at the first delimiter character recovers both sides. */
  lemma SplitAtFirst(a: string, b: string, c: string, e: string, d: char)
    requires forall i | 0 <= i < |a| :: a[i] != d
    requires forall i | 0 <= i < |c| :: c[i] != d
    requires a + [d] + b == c + [d] + e
    ensures a == c && b == e
  {
    var x := a + [d] + b;
    assert forall i | 0 <= i < |a| :: x[i] != d;
    assert forall i | 0 <= i < |c| :: x[i] != d;
    assert x[|a|] == d && x[|c|] == d;
    assert |a| == |c|;
    assert a == x[..|a|] && c == x[..|c|];
    assert b == x[|a| + 1..] && e == x[|c| + 1..];
  }

  /** Two identities are equal only for the same nickname, user and host,
      as long as nicknames carry no '!' and user names no '@'. */
  lemma IdInjective(n1: string, u1: string, h1: string, n2: string, u2: string, h2: string)
    requires forall i | 0 <= i < |n1| :: n1[i] != '!'
    requires forall i | 0 <= i < |n2| :: n2[i] != '!'
    requires forall i | 0 <= i < |u1| :: u1[i] != '@'
    requires forall i | 0 <= i < |u2| :: u2[i] != '@'
    requires ComputeId(n1, u1, h1) == ComputeId(n2, u2, h2)
    ensures n1 == n2 && u1 == u2 && h1 == h2
  {
    assert ComputeId(n1, u1, h1) == n1 + ['!'] + (u1 + "@" + h1);
    assert ComputeId(n2, u2, h2) == n2 + ['!'] + (u2 + "@" + h2);
    SplitAtFirst(n1, u1 + "@" + h1, n2, u2 + "@" + h2, '!');
    SplitAtFirst(u1, h1, u2, h2, '@');
  }

  /** A user name is a parameter word, which may contain '@': two sessions
      with different user and host fields can then share an identity. */
  lemma AmbiguousId()
    ensures ComputeId("n", "a@b", "h") == ComputeId("n", "a", "b@h")
    ensures IsParamWord("a@b")
  {
  }

  // ---------------------------------------------------------------------
  // Numeric replies
  // ---------------------------------------------------------------------

  /** The numeric replies the server sends. */
  datatype Reply =
    | Welcome | YourHost | Created | MyInfo | ISupport
    | WhoisUser | WhoisServer | EndOfWho | EndOfWhois
    | ListStart | List | ListEnd | NoTopicSet | Topic
    | WhoReply | NameReply | EndOfNames
    | Motd | MotdStart | EndOfMotd
    | NoSuchNick | NoSuchChannel | UnknownCommand | NoMotd
    | ErroneousNickname | NicknameInUse | BadChannelName

  /** Each reply's numeric value; all fit in three digits. */
  function Code(reply: Reply): (n: nat)
    ensures 0 < n < 1000
  {
    match reply
    case Welcome => 1
    case YourHost => 2
    case Created => 3
    case MyInfo => 4
    case ISupport => 5
    case WhoisUser => 311
    case WhoisServer => 312
    case EndOfWho => 315
    case EndOfWhois => 318
    case ListStart => 321
    case List => 322
    case ListEnd => 323
    case NoTopicSet => 331
    case Topic => 332
    case WhoReply => 352
    case NameReply => 353
    case EndOfNames => 366
    case Motd => 372
    case MotdStart => 375
    case EndOfMotd => 376
    case NoSuchNick => 401
    case NoSuchChannel => 403
    case UnknownCommand => 421
    case NoMotd => 422
    case ErroneousNickname => 432
    case NicknameInUse => 433
    case BadChannelName => 479
  }

  /** The three-character code field, `str(code).zfill(3)`. */
  function CodeField(reply: Reply): (r: string)
    ensures |r| == 3 && (forall i | 0 <= i < 3 :: IsDigit(r[i])) && DigitsValue(r) == Code(reply)
  {
    Code3(Code(reply));
    ZFill(NatToString(Code(reply)), 3)
  }

  /** `reply_numeric`: `:server NNN nick text`. */
  function NumericLine(server: string, reply: Reply, nick: string, text: string): string
  {
    ":" + server + " " + CodeField(reply) + " " + nick + " " + text
  }

  /** A numeric reply carries the server name as its source, the reply's
      code as three digits, then the recipient's nickname and the text. */
  lemma NumericLayout(server: string, reply: Reply, nick: string, text: string)
    ensures var l := NumericLine(server, reply, nick, text);
            var n := |server| + 2;
            |l| == n + 3 + |nick| + |text| + 2 &&
            l[..n] == ":" + server + " " &&
            (forall i | n <= i < n + 3 :: IsDigit(l[i])) &&
            DigitsValue(l[n..n + 3]) == Code(reply) &&
            l[n + 3..] == " " + nick + " " + text
  {
    var l := NumericLine(server, reply, nick, text);
    var n := |server| + 2;
    var f := CodeField(reply);
    assert l == (":" + server + " ") + f + (" " + nick + " " + text);
    assert l[n..n + 3] == f;
  }

  /** Numeric replies from the same server with different codes render
      to different lines: the code can be read back from the line. */
  lemma NumericCode(server: string, r1: Reply, n1: string, t1: string, r2: Reply, n2: string, t2: string)
    requires Code(r1) != Code(r2)
    ensures NumericLine(server, r1, n1, t1) != NumericLine(server, r2, n2, t2)
  {
    NumericLayout(server, r1, n1, t1);
    NumericLayout(server, r2, n2, t2);
  }
}
