# pirc in Dafny

A model of the core of `pirc.py`, a single-file IRC server. It covers:

- the line grammar the server accepts: the `Command` scanner and the nickname
  and channel validators;
- the CRLF framing of what it receives and sends;
- the `nick!user@host` identity and the numeric replies;
- the registry of sessions and channels, with the operations that change it;
- the command handler, verb by verb.

The server's behaviour is stated against the code's own data:

- `users` maps a lower-cased nickname to its client;
- `channels` maps a lower-cased channel name to its member list;
- `topics` maps a channel to its topic;
- every client keeps its own list of joined channels.

The server never writes to a socket in this model. A handler returns the lines
it would send as a sequence of `Emit(to, line)` values: one line for a set of
recipients, in the order the code sends them.

Modules:

- `Wrappers`: `Option` and `Result`, for the places where the code has `None`
  or raises.
- `Text`: the `str` operations the server uses. These are `lower`/`upper`,
  `strip`, `split`, `join`, `zfill` and the decimal rendering of a number.
- `Lists`: `list.remove`, plus the positions a `for` loop visits when its body
  removes the element it stands on.
- `Protocol`: the character classes of `command_pattern`, `nickname_pattern`
  and `channel_pattern`, and `is_valid_nickname`/`is_valid_channel`. Also the
  scanner `Parse` that plays the role of `Command(line)`, and `Format`, which
  renders a command back into a line.
- `Wire`: `encode`, the splitting of a received buffer into commands,
  `compute_id`, the `Reply` codes and the numeric-reply layout.
- `Registry`: the channel and topic maps as values. This module has the
  functions that say what leaving one channel, or a list of channels, does to
  them. It also has the invariant tying the two maps to every client's own
  channel list, and lemmas that each change keeps that invariant.
- `Grammar`: the line grammar of `command_pattern` written out as a relation
  between a line and the command it spells, with the proof that the scanner
  accepts exactly the lines of that grammar and returns the command they spell.
- `Server`: the classes `Client` (a `ClientRegistration`) and `IrcServer`.
  `IrcServer` has the registry as fields and a method per operation. Each
  method is proved against the `Registry` functions and keeps `Valid()`:
  - `users` is keyed by lower-cased nick;
  - every channel is non-empty, lower-cased and duplicate-free;
  - a client is in a channel's member list exactly when the channel is in its
    own list;
  - every topic belongs to an existing channel.

## Model

| member | source | states |
|---|---|---|
| Protocol.ValidNicknameIff | pirc.py:92-96 | a newline-free string is a valid nickname exactly when it has 1 to 30 characters. The first is a letter, a square bracket, a brace, a backslash, a backtick, an underscore, a caret or a vertical bar; the rest may also be digits or `-` |
| Protocol.ValidChannelIff | pirc.py:93-99 | a newline-free string is a valid channel exactly when it has 2 to 50 characters and starts with `#` or `&`. Every later character must not be a space, a comma or a control character |
| Protocol.NewlineEndedNickname | pirc.py:92-96 | the validator's `$` anchor also accepts one trailing newline: `"bob\n"` is valid although it does not have the nickname shape |
| Protocol.NicknameHasNoDelimiters | pirc.py:92-96 | a valid nickname never holds `!`, `@`, a space, a comma or a colon, so it cannot break an identity or a message line |
| Protocol.Parse | pirc.py:89-111 | every line the scanner accepts yields a well-formed command: a parameter-word source, an upper-case verb, parameter words, and newline-free content |
| Grammar.ParseMatches | pirc.py:89-111 | the scanner returns a command for a line exactly when the line spells that command in the grammar: an optional `:source ` prefix, a verb of letters of either case that upper-cases to the command's verb, each parameter after one or more spaces, the content after one or more spaces and `:`, and at most one final newline |
| Grammar.ParseAcceptsGrammar | pirc.py:89-104 | a line is accepted exactly when it spells some command in that grammar, and is refused with an error otherwise |
| Grammar.SpelledParses | pirc.py:89-111 | every spelling of a well-formed command, whatever its spacing, verb case and trailing newline, scans back to that command |
| Grammar.ParseSpelling | pirc.py:89-111 | every accepted line is a spelling of the command it yields, with the spacing, verb case and newline read off the line |
| Grammar.LooseSpelling | pirc.py:89-111 | `nick  bob` with two spaces and a final newline is accepted as `NICK` with the single parameter `bob` |
| Protocol.FormatRoundTrip | pirc.py:89-111 | rendering any well-formed command and parsing the result gives the same command back (source, upper-cased verb, parameter list or none, trailing content) |
| Protocol.FormatNoNewline | pirc.py:89-111 | a rendered well-formed command contains no newline |
| Protocol.CaretNickUnreachable | pirc.py:89-96 | `a^b` is a valid nickname, but `NICK a^b` does not parse, because `^` is not in the parameter class |
| Protocol.AmpersandChannelUnreachable | pirc.py:89-99 | `&a` is a valid channel, but `JOIN &a` does not parse, because `&` is not in the parameter class |
| Protocol.CommaListUnreachable | pirc.py:89 | no line made of a verb, a space and two parameter words joined by `,` parses, because `,` is not in the parameter class. So the comma lists that JOIN, PART and PRIVMSG split (pirc.py:359, 389, 433) only ever hold one name |
| Protocol.TrailingSpaceRejected | pirc.py:89 | a line ending in a space after the last parameter is not a command |
| Text.Lower | pirc.py:205 | lower-casing keeps the length and maps every character with the ASCII case rule |
| Text.LowerIdempotent | pirc.py:232-243 | lower-casing an already lower-cased name changes nothing, so a registry key is its own key |
| Text.LowerIgnoresCase | pirc.py:109 | upper-casing a name and then lower-casing it gives its plain lower-case form |
| Text.Strip | pirc.py:210-214 | `strip` returns a slice of its input with only blanks cut from either end. The result has no blank at either end, and it is empty exactly when the input is blank |
| Text.SplitJoin | pirc.py:359 | joining the parts of a split with the separator gives the input back |
| Text.SplitWithoutSeparator | pirc.py:359 | a string without the separator splits into itself alone |
| Text.NatToStringRoundTrip | pirc.py:225 | the decimal rendering of a number reads back as that number |
| Text.Code3 | pirc.py:225 | `zfill(3)` of any code below 1000 is three digits whose value is the code |
| Wire.Encode | pirc.py:189-190 | the encoded line is the message followed by `\r\n` and nothing else |
| Wire.FramedRoundTrip | pirc.py:208-219 | a framed well-formed command whose content does not end in whitespace, sent as one buffer, is dispatched as exactly that command (the strip of the buffer would cut such trailing whitespace) |
| Wire.BlankBufferIgnored | pirc.py:208-215 | a buffer of blanks dispatches no command |
| Wire.Dispatched | pirc.py:212-219 | at most one command per line is dispatched, and every dispatched command is well formed |
| Wire.IdInjective | pirc.py:120-121 | when nick has no `!` and user has no `@`, the identity string determines nick, user and host |
| Wire.AmbiguousId | pirc.py:120-121 | without that condition two different users (`a@b` on host `h`, `a` on host `b@h`) get the same identity |
| Wire.Code | pirc.py:137-164 | every reply code is positive and below 1000 |
| Wire.CodeField | pirc.py:225 | the code field is three digits whose value is the reply's code |
| Wire.NumericLayout | pirc.py:224-225 | a numeric reply is `:server`, a space, the three-digit code, a space, the nick, a space and the text, with nothing else |
| Wire.NumericCode | pirc.py:224-225 | numeric replies with different codes are different lines |
| Registry.Depart | pirc.py:242-254 | leaving keeps every other channel. A sole member's channel is deleted; otherwise the member list loses the leaver and only the leaver |
| Registry.Restrict | pirc.py:248-252 | the topic map after a deletion keeps exactly the topics of surviving channels, unchanged |
| Registry.DepartSymmetric | pirc.py:242-254 | leaving keeps the registry's membership in agreement with the clients' own lists |
| Registry.LeaveConsistent | pirc.py:242-254 | leaving keeps the whole invariant, including topics |
| Registry.DepartAllLeaves | pirc.py:266-271 | after leaving a duplicate-free list of channels, the client is in none of them and every other member stays |
| Registry.CoMembersComplete | pirc.py:266-271 | the QUIT audience holds every other member of every channel left |
| Registry.JoinConsistent | pirc.py:373-378 | appending a new member to a channel and the channel to the member's list keeps the invariant |
| Registry.TopicConsistent | pirc.py:423-427 | setting the topic of an existing channel keeps the invariant |
| Registry.SharersIff | pirc.py:326-329 | the NICK audience is exactly the members of some channel of the client's |
| Registry.SkipConsistent | pirc.py:266-271 | the registry stays consistent at every step of the `remove_client` loop as written |
| Lists.Remove | pirc.py:246-247 | `list.remove` drops one occurrence if there is one and keeps everything else |
| Lists.RemoveMultiset | pirc.py:246-247 | `list.remove` takes exactly one copy of the element off the multiset |
| Lists.RemoveFirstOccurrence | pirc.py:253-254 | `list.remove` removes the first occurrence and keeps the order of the rest |
| Lists.SkipStep | pirc.py:268-270 | a loop that removes the element it visits visits positions 0, 2, 4, … of the original list |
| Lists.TwoChannelsSkipOne | pirc.py:268-270 | for a client in `#a` and `#b`, that loop visits only `#a` and leaves `#b` in the client's list |
| Server.Client.constructor | pirc.py:123-134 | a new registration has the given nick, user and host, no channels, and the nick not yet set |
| Server.PlaceholderNick | pirc.py:117-118 | the generated nick `n` + seven lower-case letters is a valid nickname and is its own registry key |
| Server.IrcServer.constructor | pirc.py:168-187 | a new server has version 0.1, the given names and MOTD, and empty registries |
| Server.IrcServer.CreateClientData | pirc.py:203-206 | a new client gets `n`/`u`/`h`-prefixed placeholder names and no channels, and is registered under its nick |
| Server.IrcServer.Members | pirc.py:238-240 | for an existing channel the result is its member list under the lower-cased name; otherwise it is empty, and in a registry of non-empty channels it is empty exactly when the channel does not exist |
| Server.IrcServer.MembersIff | pirc.py:238-240 | under the server invariant, a session is among a channel's members exactly when the channel is in the session's own list |
| Server.IrcServer.ChannelGet | pirc.py:231-235 | the lookup creates an empty channel under the lower-cased name only when it is missing, and returns its member list |
| Server.IrcServer.LeaveChannel | pirc.py:242-254 | `leave_channel` changes the maps exactly as `Registry.Depart` and `Registry.Restrict` say, and removes the channel from the client's list |
| Server.IrcServer.LeaveChannelValid | pirc.py:242-254 | the same, keeping the server invariant |
| Server.IrcServer.RemoveClientAsWritten | pirc.py:256-273 | `remove_client` as written: the nick is unregistered, but only the channels at even positions are left. The client stays a member of the second channel, and the QUIT goes to the members of the channels left |
| Server.IrcServer.LeaveVisitedChannels | pirc.py:266-271 | the loop as written leaves the even-position channels, keeps the odd-position ones, and collects their co-members |
| Server.IrcServer.RemoveClient | pirc.py:256-273 | corrected `remove_client`: the nick is unregistered, and the client leaves every channel and is a member of none. The QUIT line goes once to every co-member |
| Server.IrcServer.LeaveAllChannels | pirc.py:266-271 | leaving every channel of the client's list, with the co-members collected |
| Server.IrcServer.DropUser | pirc.py:264-265 | the client's nick key is removed from `users` and nothing else |
| Server.IrcServer.MotdReplies | pirc.py:276-282 | no MOTD gives 422. Otherwise the replies are 375 with the first line, 372 for each later line and 376 at the end, all to the client |
| Server.IrcServer.SendMotd | pirc.py:276-282 | the loop sends exactly the MOTD replies |
| Server.IrcServer.Greeting | pirc.py:335-341 | registration sends five replies to the client, the first being 001 welcome with its identity |
| Server.IrcServer.CapReply | pirc.py:307-311 | `CAP * ACK` is sent exactly when the first parameter is `LS` |
| Server.IrcServer.PingReply | pirc.py:346-353 | PING is answered with one PONG line to the client exactly when it has non-empty content or parameters. The token is the content when it is non-empty, otherwise the parameters joined by single spaces |
| Server.IrcServer.PingAnswerParses | pirc.py:351-353 | the answer to a PING with parameters only parses back as a PONG from the server whose content is those parameters joined by spaces |
| Server.IrcServer.PongParses | pirc.py:350 | the PONG reply parses back as a PONG from the server carrying the token |
| Server.IrcServer.Nick | pirc.py:312-331 | an invalid nick gets 432 and a taken one 433, both with the state untouched. Otherwise the client is rekeyed under the new nick. The NICK line goes to the client and everyone sharing a channel with it, only if the nick was already set |
| Server.IrcServer.ChangeNick | pirc.py:320-331 | the rekeying branch of NICK, keeping the invariant |
| Server.IrcServer.Rekey | pirc.py:320-323 | the old nick key is removed and the new one maps to the client |
| Server.IrcServer.User | pirc.py:332-343 | USER sets the user name and sends the greeting followed by the MOTD, all to the client |
| Server.IrcServer.JoinOne | pirc.py:361-384 | a bad name gets 479. Rejoining changes nothing and resends the topic reply (332 with a non-empty topic, otherwise 331) and names. A new join appends the client once to the channel and the channel once to the client, and announces it to all members including the joiner. The first channel joined from an empty list becomes the channel WHO shows for the client, and later joins keep it |
| Server.IrcServer.Rejoin | pirc.py:365-372 | rejoining keeps the registry and replies with topic and names |
| Server.IrcServer.Join | pirc.py:357-384 | the state after JOIN is the per-name step folded over the comma list. The client is then in every valid channel named and keeps every channel it was in. It has no other new channel, and the channels not named keep their member lists. A list of one name does exactly what JoinOne does, lines included |
| Server.IrcServer.JoinEach | pirc.py:360-384 | the loop leaves the client's list and the registry exactly as the per-name step folded over the names, in order |
| Server.JoinFoldSoFar | pirc.py:360-379 | folding the JOIN step over a prefix of the names joins every valid name of it, keeps the old channels, adds no channel that is not named and leaves the unnamed channels' member lists alone |
| Server.IrcServer.PartOne | pirc.py:387-394 | parting a `#` channel the client is in leaves it, as `leave_channel` does, and tells the client and the remaining members. Any other name changes nothing |
| Server.IrcServer.Part | pirc.py:387-394 | the state after PART is the per-name step folded over the comma list. The client is then in none of the `#` channels listed, has joined nothing new and keeps every channel not named. No channel is created, and the channels not named keep their member lists. A list of one name changes the state and sends the lines exactly as PartOne does |
| Server.IrcServer.PartEach | pirc.py:390-394 | the loop leaves the client's list and the registry exactly as the per-name step folded over the names, in order |
| Server.PartFoldSoFar | pirc.py:390-394 | from a duplicate-free list of existing channels, folding the PART step over a prefix of the names leaves every `#` name of it, keeps the others, adds nothing and leaves the unnamed channels' member lists alone |
| Server.IrcServer.ListChannels | pirc.py:395-399 | LIST sends 321, one 322 entry per existing channel, each exactly once, and 323 |
| Server.IrcServer.WhoisReplies | pirc.py:400-414 | WHOIS of a registered nick gives three replies: 311 with its nick, user and host, 312 with the server and network names, and 318. An unknown nick gets 401 and 318. The first is 401 exactly when the nick is unknown |
| Server.IrcServer.WhoisFindsSession | pirc.py:400-407 | WHOIS under any spelling of a registered nick that lower-cases to its key reports that session's nick, user and host |
| Server.IrcServer.TopicCommand | pirc.py:415-430 | an unknown channel gets 403; a channel the client is not on gets 403 "not on that channel". Setting a topic updates it and tells all members; asking gets the topic reply. After a topic is set, the topic reply for that channel is 332 with it, or 331 when it was set empty |
| Server.IrcServer.PrivmsgTo | pirc.py:435-445 | a `#` target is relayed exactly when the sender is a member, to exactly the other members. A nick target goes to that user, and an unknown nick gets 401 |
| Server.IrcServer.Privmsg | pirc.py:431-445 | PRIVMSG sends the per-target result for every target of the comma list, in order. A parsed line carries only one target (see Protocol.CommaListUnreachable) |
| Server.IrcServer.ModeReply | pirc.py:446-455 | MODE answers 324 `+nt` exactly for an existing `#` channel |
| Server.IrcServer.Who | pirc.py:456-477 | WHO of a `#` channel gives one 352 line per member in order, none when the channel does not exist. A known nick gives one line naming its first channel, or `*`; an unknown one gives none. It always ends with 315 |
| Server.IrcServer.HandleCommand | pirc.py:305-480 | each verb reaches its own handler and has exactly that handler's effect and lines: NICK as Nick, USER sets the user name and sends the greeting and the MOTD, JOIN and PART change the state as their per-name folds (and, for one name, exactly as JoinOne and PartOne), QUIT unregisters the nick and takes the client out of every channel with the QUIT line to its co-members, TOPIC as TopicCommand. Every other verb changes nothing and is answered as HandleQuery states. Each verb changes only its own part of the state, a verb that needs a parameter does nothing without one, and the invariant is kept |
| Server.IrcServer.OnNick | pirc.py:312-331 | NICK with a parameter has Nick's effect and lines, and changes nothing else; without one it does nothing |
| Server.IrcServer.OnUser | pirc.py:332-343 | USER with a parameter sets the user name and sends the greeting and the MOTD, and changes nothing else; without one it does nothing |
| Server.IrcServer.OnJoin | pirc.py:357-384 | JOIN with a parameter changes the client's list and the registry as the JOIN fold over its comma list, as JoinOne for a single name, and changes nothing else; without one it does nothing |
| Server.IrcServer.OnQuit | pirc.py:385-386 | QUIT removes the client with its content, or nothing, as the reason (the corrected removal, see Findings): the nick is unregistered, the client leaves every channel and the QUIT line goes to its co-members |
| Server.IrcServer.OnPart | pirc.py:387-394 | PART with a parameter changes the client's list and the registry as the PART fold over its comma list, as PartOne for a single name, and changes nothing else; without one it does nothing |
| Server.IrcServer.OnTopic | pirc.py:415-430 | TOPIC with a parameter has TopicCommand's effect and lines and changes nothing else; without one it does nothing |
| Server.IrcServer.HandleQuery | pirc.py:305-480 | CAP, MOTD, PING, WHOIS, MODE and PRIVMSG send exactly what CapReply, MotdReplies, PingReply, WhoisReplies, ModeReply and the per-target PRIVMSG results state. LIST sends 321, one 322 per channel, each once, and 323; WHO sends what Who states; PONG sends nothing; a verb that needs a parameter sends nothing without one; an unknown verb gets 421 |
| Server.IrcServer.Handle | pirc.py:208-219 | a buffer holding no command, after blank lines and lines that do not parse are skipped, sends nothing and changes nothing. A buffer holding exactly one command has exactly the effect and the lines HandleCommand states for it. The invariant is kept |
| Server.IrcServer.HandleLines | pirc.py:211-219 | the loop over the lines: with no command dispatched nothing is sent or changed, and with one the outcome is that command's |

## Left out

- Sockets, the selector loop, `accept` and `read`: the model starts from a decoded buffer and ends with the lines to send.
- Delivery failures: `send_text_each` calling `remove_client` when a send fails is not modelled, because every send succeeds here.
- `periodic_tasks` and the PING/PONG timing: there is no clock. PONG is modelled as sending nothing, and `last_ping_time` is not kept.
- `random_id`: the random tags are parameters of `CreateClientData`, constrained to seven lower-case letters.
- The MOTD file and `textwrap`: the MOTD is given as its already-wrapped list of lines.
- UTF-8 decoding of received bytes: the model receives text.
- Logging and the command-line script that starts the server.
- Text.Lower: only ASCII letters change case; Python's `lower` also maps other Unicode letters.
- Server.IrcServer.ListChannels: the order of the 322 entries is a ghost permutation of the channel names rather than the dictionary's insertion order.
- Emit: recipients of one line are a set, so the order in which members of one channel receive it is not modelled.
- Registration gating: the code answers every verb from the start of a connection, without waiting for NICK and USER. The model follows the code.
- Server.IrcServer.Greeting: states the count, the recipients and the 001 line; the texts of 002–005 (005 being the ISupport line) are not stated in the contract.
- Server.IrcServer.Join: for a list of more than one name the lines sent are stated per name by JoinOne, not for the list. A list without a comma is handed to JoinOne directly, which is what the loop does with one name.
- Server.IrcServer.JoinEach: states the state after the loop, not the lines sent; those are stated per name by JoinOne.
- Server.IrcServer.Part: as for JOIN, a list without a comma is handed to PartOne directly, and the lines of a longer list are stated per name by PartOne.
- Server.IrcServer.PartEach: states the state after the loop, not the lines sent; those are stated per name by PartOne.
- Comma lists: JOIN, PART and PRIVMSG split their first parameter on `,`, but a line with a comma in a parameter does not parse, so only one-name lists reach them. The model keeps the split and the loop as the code has them.
- Server.IrcServer.HandleCommand: QUIT uses the corrected `remove_client` (see Findings).
- Server.IrcServer.OnQuit: QUIT calls the corrected `RemoveClient`, so a client in two or more channels leaves all of them, where `remove_client` as written leaves every second one; the as-written behaviour is `RemoveClientAsWritten` (see Findings).
- Server.IrcServer.Handle: for a buffer holding two or more commands, the lines sent and the final state are stated command by command by HandleCommand, not composed for the whole buffer; the same holds for HandleLines.

## Findings

| source | as written | input that shows it | evidently intended | confidence | as-written member | corrected member |
|---|---|---|---|---|---|---|
| pirc.py:268-270 | `remove_client` loops over `client_data.channels` while `leave_channel` removes each visited channel from that same list, so the loop skips every second channel | a client in `#a` and `#b` quits: it leaves `#a` only and stays listed as a member of `#b` | the quitting client leaves every channel it is in | not executed | Server.IrcServer.RemoveClientAsWritten | Server.IrcServer.RemoveClient |
