/** The IRC server's state and command handling: the session registry
    (`users`, keyed by lower-cased nickname), the channel registry
    (`channels`, lower-cased channel name to member list, and `topics`),
    and each client's own list of channels. Messages the server sends are
    returned as emissions: one line for a set of recipients. */
module Server {
  import opened Wrappers
  import opened Text
  import opened Lists
  import opened Protocol
  import opened Wire
  import opened Registry

  /** One line sent to every client in `to` (`send_text_each`). An empty
      set sends nothing. */
  datatype Emit = Emit(to: set<Client>, line: string)

  /** A connected client's registration (`ClientRegistration`). */
  class Client {
    var nick: string
    var nickSet: bool
    var user: string
    var host: string
    var channels: seq<string>

    constructor(nick: string, user: string, host: string)
      ensures this.nick == nick && this.user == user && this.host == host
      ensures !nickSet && channels == []
    {
      this.nick := nick;
      this.nickSet := false;
      this.user := user;
      this.host := host;
      this.channels := [];
    }

    /** `id()`: the `nick!user@host` prefix of messages this client sends. */
    function Id(): string
      reads this
    {
      ComputeId(nick, user, host)
    }
  }

  /** The verbs `handle_command` answers; any other is unknown. */
  const Verbs: set<string> :=
    {"CAP", "NICK", "USER", "MOTD", "PING", "PONG", "JOIN", "QUIT", "PART", "LIST", "WHOIS", "TOPIC",
     "PRIVMSG", "MODE", "WHO"}

  /** What `random_id` produces: seven lower-case ASCII letters. */
  predicate IsRandomId(t: string)
  {
    |t| == 7 && forall i | 0 <= i < 7 :: IsLowerAscii(t[i])
  }

  /** A placeholder nickname is a valid nickname and is its own lower-case
      form, so the session is found under the nickname it carries. */
  lemma PlaceholderNick(t: string)
    requires IsRandomId(t)
    ensures IsValidNickname("n" + t) && Lower("n" + t) == "n" + t
  {
    var s := "n" + t;
    assert forall i | 1 <= i < |s| :: s[i] == t[i - 1];
    assert NicknameShape(s);
  }

  /** A PART or PRIVMSG target that names a channel. */
  predicate Hashed(target: string)
  {
    |target| >= 1 && target[0] == '#'
  }

  /** The lower-cased channels a JOIN list names validly. */
  function JoinTargets(names: seq<string>): set<string>
  {
    set j | 0 <= j < |names| && IsValidChannel(names[j]) :: Lower(names[j])
  }

  lemma JoinTargetsStep(names: seq<string>, i: nat)
    requires i < |names|
    ensures JoinTargets(names[..i + 1]) ==
            JoinTargets(names[..i]) + (if IsValidChannel(names[i]) then {Lower(names[i])} else {})
  {
    var a := names[..i + 1];
    assert forall j | 0 <= j < i :: a[j] == names[..i][j];
    assert a[i] == names[i];
  }

  /** The lower-cased names of the `#` channels a PART list names. */
  function PartTargets(names: seq<string>): set<string>
  {
    set j | 0 <= j < |names| && Hashed(names[j]) :: Lower(names[j])
  }

  lemma PartTargetsStep(names: seq<string>, i: nat)
    requires i < |names|
    ensures PartTargets(names[..i + 1]) ==
            PartTargets(names[..i]) + (if Hashed(names[i]) then {Lower(names[i])} else {})
  {
    var a := names[..i + 1];
    assert forall j | 0 <= j < i :: a[j] == names[..i][j];
    assert a[i] == names[i];
  }

  /** One JOIN name's effect on the client's own list and the registry:
      a new, valid channel is appended on both sides; anything else leaves
      both as they were. */
  predicate OneJoin<C(==)>(name: string, c: C, mine: seq<string>, chans: map<string, seq<C>>,
                           mine': seq<string>, chans': map<string, seq<C>>)
  {
    var lc := Lower(name);
    if !IsValidChannel(name) || lc in mine then mine' == mine && chans' == chans
    else mine' == mine + [lc] && chans' == chans[lc := MembersOf(chans, lc) + [c]]
  }

  /** The same step as a value: the client's own list and the registry
      after one JOIN name. */
  function JoinStep<C(==)>(name: string, c: C, mine: seq<string>, chans: map<string, seq<C>>):
    (seq<string>, map<string, seq<C>>)
  {
    var lc := Lower(name);
    if !IsValidChannel(name) || lc in mine then (mine, chans)
    else (mine + [lc], chans[lc := MembersOf(chans, lc) + [c]])
  }

  /** The client's own list and the registry after JOIN has taken the
      names in order, starting from `mine0` and `chans0`. */
  function JoinFold<C(==)>(names: seq<string>, c: C, mine0: seq<string>, chans0: map<string, seq<C>>):
    (seq<string>, map<string, seq<C>>)
    decreases |names|
  {
    if names == [] then (mine0, chans0)
    else
      var prev := JoinFold(names[..|names| - 1], c, mine0, chans0);
      JoinStep(names[|names| - 1], c, prev.0, prev.1)
  }

  /** What the first `i` names of a JOIN list have done: every valid one
      is joined, nothing else is new, and the channels not named are as
      they were. */
  predicate JoinSoFar<C(==)>(names: seq<string>, i: nat, mine0: seq<string>, chans0: map<string, seq<C>>,
                             mine: seq<string>, chans: map<string, seq<C>>)
  {
    && i <= |names|
    && mine0 <= mine
    && (forall j | 0 <= j < i && IsValidChannel(names[j]) :: Lower(names[j]) in mine)
    && (forall lc | lc in mine :: lc in mine0 || lc in JoinTargets(names[..i]))
    && chans0.Keys <= chans.Keys
    && (forall k | k in chans && k !in JoinTargets(names[..i]) :: k in chans0 && chans[k] == chans0[k])
  }

  lemma JoinSoFarStep<C>(names: seq<string>, i: nat, mine0: seq<string>, chans0: map<string, seq<C>>,
                         mine: seq<string>, chans: map<string, seq<C>>, c: C,
                         mine': seq<string>, chans': map<string, seq<C>>)
    requires JoinSoFar(names, i, mine0, chans0, mine, chans) && i < |names|
    requires OneJoin(names[i], c, mine, chans, mine', chans')
    ensures JoinSoFar(names, i + 1, mine0, chans0, mine', chans')
  {
    JoinTargetsStep(names, i);
    PrefixMembers(mine, mine');
    assert IsValidChannel(names[i]) ==> Lower(names[i]) in mine';
  }

  /** The fold over the first `i` names has done what JoinSoFar says. */
  lemma {:induction false} JoinFoldSoFar<C>(names: seq<string>, i: nat, c: C,
                                            mine0: seq<string>, chans0: map<string, seq<C>>)
    requires i <= |names|
    ensures var r := JoinFold(names[..i], c, mine0, chans0); JoinSoFar(names, i, mine0, chans0, r.0, r.1)
  {
    if i == 0 {
      assert names[..0] == [];
    } else {
      JoinFoldSoFar(names, i - 1, c, mine0, chans0);
      assert names[..i][..i - 1] == names[..i - 1];
      var prev := JoinFold(names[..i - 1], c, mine0, chans0);
      var r := JoinFold(names[..i], c, mine0, chans0);
      JoinSoFarStep(names, i - 1, mine0, chans0, prev.0, prev.1, c, r.0, r.1);
    }
  }

  /** A JOIN list of one name folds to that name's single step. */
  lemma JoinFoldOne<C>(names: seq<string>, c: C, mine0: seq<string>, chans0: map<string, seq<C>>)
    requires |names| == 1
    ensures JoinFold(names, c, mine0, chans0) == JoinStep(names[0], c, mine0, chans0)
  {
    assert names[..0] == [];
  }

  lemma JoinSoFarDone<C>(names: seq<string>, mine0: seq<string>, chans0: map<string, seq<C>>,
                         mine: seq<string>, chans: map<string, seq<C>>)
    requires JoinSoFar(names, |names|, mine0, chans0, mine, chans)
    ensures forall j | 0 <= j < |names| && IsValidChannel(names[j]) :: Lower(names[j]) in mine
    ensures mine0 <= mine && chans0.Keys <= chans.Keys
    ensures forall lc | lc in mine :: lc in mine0 || lc in JoinTargets(names)
    ensures forall k | k in chans && k !in JoinTargets(names) :: k in chans0 && chans[k] == chans0[k]
  {
    assert names[..|names|] == names;
  }

  /** One PART name's effect: a `#` channel the client is in is left on
      both sides; anything else leaves both as they were. */
  predicate OnePart<C(==)>(name: string, c: C, mine: seq<string>, chans: map<string, seq<C>>,
                           mine': seq<string>, chans': map<string, seq<C>>)
  {
    var lc := Lower(name);
    if Hashed(name) && lc in chans && lc in mine then chans' == Depart(chans, c, lc) && mine' == Remove(mine, lc)
    else mine' == mine && chans' == chans
  }

  /** What the first `i` names of a PART list have done: every `#` one is
      left, nothing is new, and the channels not named are as they were. */
  predicate PartSoFar<C(==)>(names: seq<string>, i: nat, mine0: seq<string>, chans0: map<string, seq<C>>,
                             mine: seq<string>, chans: map<string, seq<C>>)
  {
    && i <= |names|
    && (forall j | 0 <= j < i && Hashed(names[j]) :: Lower(names[j]) !in mine)
    && (forall lc | lc in mine :: lc in mine0)
    && (forall lc | lc in mine0 && lc !in PartTargets(names[..i]) :: lc in mine)
    && chans.Keys <= chans0.Keys
    && (forall k | k in chans0 && k !in PartTargets(names[..i]) :: k in chans && chans[k] == chans0[k])
  }

  /** The same step as a value. */
  function PartStep<C(==)>(name: string, c: C, mine: seq<string>, chans: map<string, seq<C>>):
    (seq<string>, map<string, seq<C>>)
  {
    var lc := Lower(name);
    if Hashed(name) && lc in chans && lc in mine then (Remove(mine, lc), Depart(chans, c, lc))
    else (mine, chans)
  }

  /** The client's own list and the registry after PART has taken the
      names in order, starting from `mine0` and `chans0`. */
  function PartFold<C(==)>(names: seq<string>, c: C, mine0: seq<string>, chans0: map<string, seq<C>>):
    (seq<string>, map<string, seq<C>>)
    decreases |names|
  {
    if names == [] then (mine0, chans0)
    else
      var prev := PartFold(names[..|names| - 1], c, mine0, chans0);
      PartStep(names[|names| - 1], c, prev.0, prev.1)
  }

  lemma PartSoFarStep<C>(names: seq<string>, i: nat, mine0: seq<string>, chans0: map<string, seq<C>>,
                         mine: seq<string>, chans: map<string, seq<C>>, c: C,
                         mine': seq<string>, chans': map<string, seq<C>>)
    requires PartSoFar(names, i, mine0, chans0, mine, chans) && i < |names|
    requires OnePart(names[i], c, mine, chans, mine', chans')
    requires Hashed(names[i]) ==> Lower(names[i]) !in mine'
    ensures PartSoFar(names, i + 1, mine0, chans0, mine', chans')
  {
    PartTargetsStep(names, i);
  }
  /** From a duplicate-free list of existing channels, the fold over the
      first `i` names has done what PartSoFar says, and the list stays
      duplicate-free and names only existing channels. */
  lemma {:induction false} PartFoldSoFar<C>(names: seq<string>, i: nat, c: C,
                                            mine0: seq<string>, chans0: map<string, seq<C>>)
    requires i <= |names|
    requires NoDup(mine0) && forall lc | lc in mine0 :: lc in chans0
    ensures var r := PartFold(names[..i], c, mine0, chans0);
            NoDup(r.0) && (forall lc | lc in r.0 :: lc in r.1) && PartSoFar(names, i, mine0, chans0, r.0, r.1)
  {
    if i == 0 {
      assert names[..0] == [];
    } else {
      PartFoldSoFar(names, i - 1, c, mine0, chans0);
      assert names[..i][..i - 1] == names[..i - 1];
      var prev := PartFold(names[..i - 1], c, mine0, chans0);
      var r := PartFold(names[..i], c, mine0, chans0);
      assert r == PartStep(names[i - 1], c, prev.0, prev.1);
      PartSoFarStep(names, i - 1, mine0, chans0, prev.0, prev.1, c, r.0, r.1);
    }
  }

  /** A PART list of one name folds to that name's single step. */
  lemma PartFoldOne<C>(names: seq<string>, c: C, mine0: seq<string>, chans0: map<string, seq<C>>)
    requires |names| == 1
    ensures PartFold(names, c, mine0, chans0) == PartStep(names[0], c, mine0, chans0)
  {
    assert names[..0] == [];
  }


  class IrcServer {
    const networkName: string
    const serverName: string
    const version: string
    const motd: seq<string>
    var channels: map<string, seq<Client>>
    var topics: map<string, string>
    var users: map<string, Client>
    /** Every client this server has created. */
    ghost var sessions: set<Client>

    /** The invariant survives any step that leaves the registry maps and
        every session's nickname and channel list as they were. */
    twostate lemma Unaffected()
      requires old(Valid()) && sessions == old(sessions)
      requires users == old(users) && channels == old(channels) && topics == old(topics)
      requires forall x | x in sessions :: x.nick == old(x.nick) && x.channels == old(x.channels)
      ensures Valid()
    {
      assert Rooms() == old(Rooms());
    }

    /** Each session's own channel list. */
    ghost function Rooms(): map<Client, seq<string>>
      reads this`sessions, sessions`channels
    {
      map x | x in sessions :: x.channels
    }

    /** Changing one session's channel list changes only its entry. */
    twostate lemma RoomsUpdate(c: Client)
      requires c in sessions && sessions == old(sessions)
      requires forall x | x in sessions && x != c :: x.channels == old(x.channels)
      ensures Rooms() == old(Rooms())[c := c.channels]
    {
      var now := Rooms();
      var was := old(Rooms())[c := c.channels];
      assert now.Keys == was.Keys;
      forall x | x in now ensures now[x] == was[x] {
      }
    }

    /** What the invariant says about one session's own list. */
    lemma OwnList(c: Client)
      requires Valid() && c in sessions
      ensures NoDup(c.channels)
      ensures forall ch | ch in c.channels :: ch in channels && c in channels[ch]
      ensures forall ch | ch in channels && c in channels[ch] :: ch in c.channels
    {
      assert Rooms()[c] == c.channels;
    }

    /** `users` finds each listed client under its lower-cased nickname. */
    ghost predicate UsersKeyed()
      reads this`users, this`sessions, sessions`nick
    {
      forall k | k in users :: users[k] in sessions && Lower(users[k].nick) == k
    }

    /** The registry invariant: sessions are found under their lower-cased
        nicknames, and the channel registry is consistent with the
        sessions' own channel lists. */
    ghost predicate Valid()
      reads this`users, this`channels, this`topics, this`sessions, sessions`nick, sessions`channels
    {
      UsersKeyed() && Consistent(channels, topics, Rooms())
    }

    /** The MOTD is taken as already wrapped into lines. */
    constructor(networkName: string, serverName: string, motd: seq<string>)
      ensures this.networkName == networkName && this.serverName == serverName
      ensures this.motd == motd && version == "0.1"
      ensures channels == map[] && topics == map[] && users == map[] && sessions == {}
      ensures Valid()
    {
      this.networkName := networkName;
      this.serverName := serverName;
      this.version := "0.1";
      this.motd := motd;
      this.channels := map[];
      this.topics := map[];
      this.users := map[];
      this.sessions := {};
    }

    /** `create_client_data`: a new session under a placeholder identity,
        registered under its placeholder nickname. A placeholder equal to
        an existing nickname replaces that entry. */
    method CreateClientData(nickTag: string, userTag: string, hostTag: string) returns (c: Client)
      requires Valid()
      requires IsRandomId(nickTag) && IsRandomId(userTag) && IsRandomId(hostTag)
      modifies this`users, this`sessions
      ensures fresh(c)
      ensures c.nick == "n" + nickTag && c.user == "u" + userTag && c.host == "h" + hostTag
      ensures !c.nickSet && c.channels == []
      ensures users == old(users)[c.nick := c] && sessions == old(sessions) + {c}
      ensures Valid()
    {
      c := new Client("n" + nickTag, "u" + userTag, "h" + hostTag);
      PlaceholderNick(nickTag);
      users := users[Lower(c.nick) := c];
      NewcomerSymmetric(channels, Rooms(), c);
      sessions := sessions + {c};
      assert Rooms() == old(Rooms())[c := []];
    }

    /** `channel_get_members`: the member list, or the empty list for a
        channel that does not exist; never creates a channel. */
    function Members(name: string): (r: seq<Client>)
      reads this
      ensures Populated(channels) ==> (r == [] <==> Lower(name) !in channels)
      ensures forall x | x in r :: Lower(name) in channels && x in channels[Lower(name)]
      ensures Lower(name) in channels ==> r == channels[Lower(name)]
    {
      MembersOf(channels, Lower(name))
    }

    /** Under the invariant, a session is among a channel's members exactly
        when the channel is in the session's own list. */
    lemma MembersIff(c: Client, name: string)
      requires Valid() && c in sessions
      ensures c in Members(name) <==> Lower(name) in c.channels
    {
      OwnList(c);
    }

    /** `channel_get`: the member list, creating an empty channel when
        there is none. */
    method ChannelGet(name: string) returns (members: seq<Client>)
      modifies this`channels
      ensures Lower(name) in old(channels) ==> channels == old(channels)
      ensures Lower(name) !in old(channels) ==> channels == old(channels)[Lower(name) := []]
      ensures members == MembersOf(old(channels), Lower(name)) && members == channels[Lower(name)]
    {
      var lc := Lower(name);
      if lc !in channels {
        channels := channels[lc := []];
      }
      members := channels[lc];
    }

    /** The channel side of `leave_channel`. */
    method DropMember(c: Client, lc: string)
      requires topics.Keys <= channels.Keys
      modifies this`channels, this`topics
      ensures channels == Depart(old(channels), c, lc)
      ensures topics == Restrict(old(topics), channels.Keys)
    {
      RestrictKeys(topics, channels.Keys, lc);
      if lc in channels {
        var list := channels[lc];
        if c in list {
          list := Remove(list, c);
          if |list| <= 0 {
            channels := channels - {lc};
            if lc in topics {
              topics := topics - {lc};
            }
            assert topics == old(topics) - {lc};
          } else {
            channels := channels[lc := list];
          }
        }
      }
    }

    /** `leave_channel`: the client leaves the channel on both sides; an
        emptied channel is removed together with its topic. */
    method LeaveChannel(c: Client, name: string)
      requires topics.Keys <= channels.Keys
      modifies this`channels, this`topics, c`channels
      ensures channels == Depart(old(channels), c, Lower(name))
      ensures topics == Restrict(old(topics), channels.Keys)
      ensures c.channels == Remove(old(c.channels), Lower(name))
    {
      var lc := Lower(name);
      DropMember(c, lc);
      if lc in c.channels {
        c.channels := Remove(c.channels, lc);
      }
    }

    /** The invariant after a change to one session's channel list, given
        that the registry is consistent with that change. */
    twostate lemma StillValid(c: Client)
      requires old(Valid()) && c in sessions && sessions == old(sessions) && users == old(users)
      requires forall x | x in sessions :: x.nick == old(x.nick)
      requires forall x | x in sessions && x != c :: x.channels == old(x.channels)
      requires Consistent(channels, topics, old(Rooms())[c := c.channels])
      ensures Valid()
    {
      RoomsUpdate(c);
    }

    /** `leave_channel` keeps the invariant. */
    method LeaveChannelValid(c: Client, name: string)
      requires Valid() && c in sessions
      modifies this`channels, this`topics, c`channels
      ensures channels == Depart(old(channels), c, Lower(name))
      ensures topics == Restrict(old(topics), channels.Keys)
      ensures c.channels == Remove(old(c.channels), Lower(name))
      ensures Valid()
    {
      LeaveChannel(c, name);
      LeaveConsistent(old(channels), old(topics), old(Rooms()), c, Lower(name));
      StillValid(c);
    }

    /** The line announcing a disconnect to the client's co-members. */
    function QuitLine(c: Client, reason: string): string
      reads c
    {
      ":" + c.Id() + " QUIT :Quit: " + reason
    }

    /** One pass of the channel loop in `remove_client`: leave the channel
        and collect the members left in it. `names` is the order in which
        the loop reaches channels; `visited` the part already left. */
    method LeaveAndCollect(c: Client, channel: string, ghost chans0: map<string, seq<Client>>,
                           ghost topics0: map<string, string>, ghost names: seq<string>, ghost i: nat)
      returns (members: set<Client>)
      requires channel in channels && Lower(channel) == channel
      requires Populated(chans0) && NoDup(names) && i < |names| && names[i] == channel
      requires channels == DepartAll(chans0, c, names[..i]) && topics == Restrict(topics0, channels.Keys)
      modifies this`channels, this`topics, c`channels
      ensures c.channels == Remove(old(c.channels), channel)
      ensures channels == DepartAll(chans0, c, names[..i + 1]) && topics == Restrict(topics0, channels.Keys)
      ensures CoMembers(chans0, c, names[..i + 1]) == CoMembers(chans0, c, names[..i]) + members
    {
      LeaveStep(chans0, c, names, i, names[..i]);
      ghost var before := channels;
      LeaveChannel(c, channel);
      RestrictTwice(topics0, before.Keys, channels.Keys);
      members := set x | x in Members(channel);
    }

    /** The first step of `remove_client`: forget the nickname. */
    method DropUser(c: Client)
      requires Valid()
      modifies this`users
      ensures users == old(users) - {Lower(c.nick)}
      ensures Valid()
    {
      var key := Lower(c.nick);
      if key in users {
        users := users - {key};
      } else {
        assert users - {key} == users;
      }
    }

    /** The registry part of `remove_client`, with the channel loop as
        written: the loop walks the client's own channel list while
        `leave_channel` removes the channel it is visiting from that list,
        so it visits only the channels at even positions. The client stays
        in the others, and their members are not told. */
    method RemoveClientAsWritten(c: Client, reason: string) returns (out: seq<Emit>)
      requires Valid() && c in sessions
      modifies this`users, this`channels, this`topics, c`channels
      ensures users == old(users) - {Lower(c.nick)}
      ensures channels == DepartAll(old(channels), c, Evens(old(c.channels)))
      ensures topics == Restrict(old(topics), channels.Keys)
      ensures c.channels == Odds(old(c.channels))
      ensures out == [Emit(CoMembers(old(channels), c, Evens(old(c.channels))), QuitLine(c, reason))]
      ensures |old(c.channels)| >= 2 ==> old(c.channels)[1] in channels && c in channels[old(c.channels)[1]]
      ensures Valid()
    {
      DropUser(c);
      ghost var orig := c.channels;
      var neighbors := LeaveVisitedChannels(c);
      out := [Emit(neighbors, QuitLine(c, reason))];
      OwnList(c);
      if |orig| >= 2 {
        SecondIsOdd(orig);
      }
    }

    /** The channel loop of `remove_client` as written: position `i` of
        the shrinking list is the channel at position `2 * i` of the list
        the loop started from. */
    method LeaveVisitedChannels(c: Client) returns (neighbors: set<Client>)
      requires Valid() && c in sessions
      modifies this`channels, this`topics, c`channels
      ensures channels == DepartAll(old(channels), c, Evens(old(c.channels)))
      ensures topics == Restrict(old(topics), channels.Keys)
      ensures c.channels == Odds(old(c.channels))
      ensures neighbors == CoMembers(old(channels), c, Evens(old(c.channels)))
      ensures Valid()
    {
      ghost var orig := c.channels;
      ghost var rooms := Rooms();
      neighbors := {};
      var i := 0;
      while i < |c.channels|
        invariant Skipping(c, orig, old(channels), old(topics), i, neighbors)
        decreases |orig| - 2 * i
      {
        neighbors := VisitNext(c, orig, rooms, old(channels), old(topics), i, neighbors);
        i := i + 1;
      }
      SkipEnd(orig, i);
      assert Evens(orig)[..i] == Evens(orig);
      Skipped(c);
    }

    /** The invariant after `c` has left the channels at even positions
        of its list and kept those at odd positions. */
    twostate lemma Skipped(c: Client)
      requires old(Valid()) && c in sessions && sessions == old(sessions) && users == old(users)
      requires c.channels == Odds(old(c.channels))
      requires channels == DepartAll(old(channels), c, Evens(old(c.channels)))
      requires topics == Restrict(old(topics), channels.Keys)
      requires forall x | x in sessions :: x.nick == old(x.nick)
      requires forall x | x in sessions && x != c :: x.channels == old(x.channels)
      ensures Valid()
    {
      assert old(Rooms())[c] == old(c.channels);
      SkipConsistentEnd(old(channels), old(topics), old(Rooms()), c, old(c.channels));
      StillValid(c);
    }

    /** The state of that loop after `i` passes, begun from the registry
        `chans0`, `topics0` and the list `orig`. */
    ghost predicate Skipping(c: Client, orig: seq<string>, chans0: map<string, seq<Client>>,
                             topics0: map<string, string>, i: nat, neighbors: set<Client>)
      reads this`channels, this`topics, c`channels
    {
      2 * i <= |orig| + 1 && c.channels == Unvisited(orig, i) &&
      channels == DepartAll(chans0, c, Evens(orig)[..i]) && topics == Restrict(topics0, channels.Keys) &&
      neighbors == CoMembers(chans0, c, Evens(orig)[..i])
    }

    /** One pass of that loop: the channel at position `i` of the current
        list is left if it still exists, and its remaining members join
        the neighbours. */
    method VisitNext(c: Client, ghost orig: seq<string>, ghost rooms: map<Client, seq<string>>,
                     ghost chans0: map<string, seq<Client>>, ghost topics0: map<string, string>,
                     i: nat, neighbors: set<Client>)
      returns (next: set<Client>)
      requires Consistent(chans0, topics0, rooms) && c in rooms && rooms[c] == orig
      requires Skipping(c, orig, chans0, topics0, i, neighbors) && i < |c.channels|
      modifies this`channels, this`topics, c`channels
      ensures 2 * i < |orig| && Skipping(c, orig, chans0, topics0, i + 1, next)
    {
      SkipConsistent(chans0, topics0, rooms, c, orig, i);
      SkipStep(orig, i);
      EvensNoDup(orig);
      var channel := c.channels[i];
      Roomed(channels, topics, rooms[c := c.channels], c, channel);
      next := neighbors;
      if channel in channels {
        var members := LeaveAndCollect(c, channel, chans0, topics0, Evens(orig), i);
        next := next + members;
      }
    }

    /** `remove_client` with the loop walking a copy of the client's
        channel list: the client leaves every channel it is in, and every
        member of those channels is told once. */
    method RemoveClient(c: Client, reason: string) returns (out: seq<Emit>)
      requires Valid() && c in sessions
      modifies this`users, this`channels, this`topics, c`channels
      ensures users == old(users) - {Lower(c.nick)}
      ensures channels == DepartAll(old(channels), c, old(c.channels))
      ensures topics == Restrict(old(topics), channels.Keys)
      ensures c.channels == [] && forall k | k in channels :: c !in channels[k]
      ensures out == [Emit(CoMembers(old(channels), c, old(c.channels)), QuitLine(c, reason))]
      ensures Valid()
    {
      DropUser(c);
      var neighbors := LeaveAllChannels(c);
      out := [Emit(neighbors, QuitLine(c, reason))];
      NowhereAfterLeaving(c);
    }

    /** A client with an empty list of its own is in no channel. */
    lemma NowhereAfterLeaving(c: Client)
      requires Valid() && c in sessions && c.channels == []
      ensures forall k | k in channels :: c !in channels[k]
    {
      OwnList(c);
    }

    /** The corrected channel loop of `remove_client`. */
    method LeaveAllChannels(c: Client) returns (neighbors: set<Client>)
      requires Valid() && c in sessions
      modifies this`channels, this`topics, c`channels
      ensures channels == DepartAll(old(channels), c, old(c.channels))
      ensures topics == Restrict(old(topics), channels.Keys)
      ensures c.channels == []
      ensures neighbors == CoMembers(old(channels), c, old(c.channels))
      ensures Valid()
    {
      var chs := c.channels;
      ghost var rooms := Rooms();
      neighbors := {};
      var i := 0;
      while i < |chs|
        invariant i <= |chs| && c.channels == chs[i..]
        invariant channels == DepartAll(old(channels), c, chs[..i])
        invariant topics == Restrict(old(topics), channels.Keys)
        invariant neighbors == CoMembers(old(channels), c, chs[..i])
      {
        neighbors := VisitCopy(c, chs, rooms, old(channels), old(topics), i, neighbors);
        i := i + 1;
      }
      assert chs[..i] == chs;
      PrefixConsistent(old(channels), old(topics), rooms, c, chs, i);
      StillValid(c);
    }

    /** One pass of the corrected loop. */
    method VisitCopy(c: Client, chs: seq<string>, ghost rooms: map<Client, seq<string>>,
                     ghost chans0: map<string, seq<Client>>, ghost topics0: map<string, string>,
                     i: nat, neighbors: set<Client>)
      returns (next: set<Client>)
      requires Consistent(chans0, topics0, rooms) && c in rooms && rooms[c] == chs
      requires i < |chs| && c.channels == chs[i..]
      requires channels == DepartAll(chans0, c, chs[..i]) && topics == Restrict(topics0, channels.Keys)
      requires neighbors == CoMembers(chans0, c, chs[..i])
      modifies this`channels, this`topics, c`channels
      ensures c.channels == chs[i + 1..]
      ensures channels == DepartAll(chans0, c, chs[..i + 1]) && topics == Restrict(topics0, channels.Keys)
      ensures next == CoMembers(chans0, c, chs[..i + 1])
    {
      PrefixConsistent(chans0, topics0, rooms, c, chs, i);
      var channel := chs[i];
      Roomed(channels, topics, rooms[c := c.channels], c, channel);
      next := neighbors;
      if channel in channels {
        var members := LeaveAndCollect(c, channel, chans0, topics0, chs, i);
        next := next + members;
      }
    }

    // -------------------------------------------------------------------
    // Replies
    // -------------------------------------------------------------------

    /** `reply_numeric`: a numeric reply to one client, addressed to its
        current nickname. */
    function Numeric(c: Client, reply: Reply, text: string): Emit
      reads c`nick
    {
      NumericTo(c, c.nick, reply, text)
    }

    /** A numeric reply to `c`, addressed to `nick`. */
    function NumericTo(c: Client, nick: string, reply: Reply, text: string): Emit
    {
      Emit({c}, NumericLine(serverName, reply, nick, text))
    }

    /** `send_topic`: the topic of a channel, or the notice that none is
        set; an empty topic counts as none. */
    function TopicReply(c: Client, lc: string): (e: Emit)
      reads this`topics, c`nick
      ensures e.to == {c}
      ensures lc in topics && topics[lc] != "" ==> e == Numeric(c, Topic, lc + " :" + topics[lc])
      ensures lc !in topics || topics[lc] == "" ==> e == Numeric(c, NoTopicSet, lc + " :No topic is set")
    {
      if lc in topics && topics[lc] != "" then Numeric(c, Topic, lc + " :" + topics[lc])
      else Numeric(c, NoTopicSet, lc + " :No topic is set")
    }

    /** `send_motd`: the message of the day, line by line between a start
        and an end reply, or the notice that there is none. */
    function MotdReplies(c: Client, nick: string): (r: seq<Emit>)
      ensures motd == [] ==> r == [NumericTo(c, nick, NoMotd, ":MOTD File is missing")]
      ensures motd != [] ==> |r| == |motd| + 1 && r[0] == NumericTo(c, nick, MotdStart, ":- " + motd[0]) &&
                             r[|motd|] == NumericTo(c, nick, EndOfMotd, ":-") &&
                             forall i | 1 <= i < |motd| :: r[i] == NumericTo(c, nick, Motd, ":- " + motd[i])
      ensures forall e | e in r :: e.to == {c}
    {
      if motd == [] then [NumericTo(c, nick, NoMotd, ":MOTD File is missing")]
      else
        seq(|motd|, i requires 0 <= i < |motd| => NumericTo(c, nick, if i == 0 then MotdStart else Motd, ":- " + motd[i])) +
        [NumericTo(c, nick, EndOfMotd, ":-")]
    }

    /** The loop of `send_motd`. */
    method SendMotd(c: Client) returns (out: seq<Emit>)
      ensures out == MotdReplies(c, c.nick)
    {
      if motd == [] {
        out := [Numeric(c, NoMotd, ":MOTD File is missing")];
      } else {
        ghost var all := MotdReplies(c, c.nick);
        out := [];
        var i := 0;
        while i < |motd|
          invariant i <= |motd| && out == all[..i]
        {
          TakeNext(all, i);
          out := out + [Numeric(c, if i == 0 then MotdStart else Motd, ":- " + motd[i])];
          i := i + 1;
        }
        TakeNext(all, i);
        assert all[..i + 1] == all;
        out := out + [Numeric(c, EndOfMotd, ":-")];
      }
    }

    /** The five registration replies sent on USER. */
    function Greeting(c: Client): (r: seq<Emit>)
      reads c
      ensures |r| == 5 && forall e | e in r :: e.to == {c}
      ensures r[0] == Numeric(c, Welcome, ":Welcome, " + c.Id())
    {
      [Numeric(c, Welcome, ":Welcome, " + c.Id()),
       Numeric(c, YourHost, ":Your host is " + serverName + ", running version " + version),
       Numeric(c, Created, ":This server was created today"),
       Numeric(c, MyInfo, serverName + " " + version + "  "),
       Numeric(c, ISupport, "NETWORK=" + networkName + " :are supported by this server")]
    }

    /** A command with at least one parameter (`if command.subcommands`). */
    predicate HasParams(cmd: Command)
    {
      cmd.params.Some? && |cmd.params.value| >= 1
    }

    /** The parameter a handler acts on: the first, when there is one. */
    function FirstParam(cmd: Command): string
    {
      if HasParams(cmd) then cmd.params.value[0] else ""
    }

    /** `CAP LS` is acknowledged; any other CAP is ignored. */
    function CapReply(c: Client, cmd: Command): (r: seq<Emit>)
      ensures r != [] <==> HasParams(cmd) && cmd.params.value[0] == "LS"
      ensures forall e | e in r :: e == Emit({c}, "CAP * ACK")
    {
      if HasParams(cmd) && cmd.params.value[0] == "LS" then [Emit({c}, "CAP * ACK")] else []
    }

    /** The PONG line answering a PING token. */
    function PongLine(token: string): string
    {
      ":" + serverName + " PONG " + serverName + " :" + token
    }

    /** PING: the token is the content when there is a non-empty one,
        otherwise the parameters joined by spaces; without either there is
        no answer. */
    function PingReply(c: Client, cmd: Command): (r: seq<Emit>)
      ensures |r| <= 1 && forall e | e in r :: e.to == {c}
      ensures r == [] <==> (cmd.content.None? || cmd.content.value == "") && !HasParams(cmd)
      ensures cmd.content.Some? && cmd.content.value != "" ==> r == [Emit({c}, PongLine(cmd.content.value))]
      ensures (cmd.content.None? || cmd.content.value == "") && HasParams(cmd) ==>
                r == [Emit({c}, PongLine(JoinWith(cmd.params.value, " ")))]
    {
      if cmd.content.Some? && cmd.content.value != "" then [Emit({c}, PongLine(cmd.content.value))]
      else if HasParams(cmd) then [Emit({c}, PongLine(JoinWith(cmd.params.value, " ")))]
      else []
    }

    /** The PONG line is a well-formed message from this server: a client
        parses it back into the server as source, the server name as the
        only parameter and the token as content. */
    lemma PongParses(token: string)
      requires IsParamWord(serverName) && NoNewline(token)
      ensures Parse(PongLine(token)) == Ok(Command(Some(serverName), "PONG", Some([serverName]), Some(token)))
    {
      var cmd := Command(Some(serverName), "PONG", Some([serverName]), Some(token));
      assert AllParamWords([serverName]);
      assert ParamsText([serverName]) == " " + serverName;
      assert PongLine(token) == Format(cmd);
      FormatRoundTrip(cmd);
    }

    /** Parameters joined by single spaces stay on one line. */
    lemma {:induction false} JoinedNoNewline(ps: seq<string>)
      requires AllParamWords(ps)
      ensures NoNewline(JoinWith(ps, " "))
      decreases |ps|
    {
      if |ps| > 1 {
        JoinedNoNewline(ps[1..]);
        var rest := JoinWith(ps[1..], " ");
        var j := JoinWith(ps, " ");
        assert j == ps[0] + " " + rest;
        forall i | 0 <= i < |j| ensures j[i] != '\n' {
          if i < |ps[0]| {
            assert j[i] == ps[0][i];
          } else if i > |ps[0]| {
            assert j[i] == rest[i - |ps[0]| - 1];
          }
        }
      }
    }

    /** A PING that carries only parameters is answered with a PONG whose
        content, as the client parses it, is those parameters joined by
        spaces. */
    lemma PingAnswerParses(c: Client, cmd: Command)
      requires WellFormed(cmd) && IsParamWord(serverName)
      requires HasParams(cmd) && (cmd.content.None? || cmd.content.value == "")
      ensures |PingReply(c, cmd)| == 1
      ensures Parse(PingReply(c, cmd)[0].line) ==
              Ok(Command(Some(serverName), "PONG", Some([serverName]), Some(JoinWith(cmd.params.value, " "))))
    {
      JoinedNoNewline(cmd.params.value);
      PongParses(JoinWith(cmd.params.value, " "));
    }

    /** WHOIS: the target's identity and server, or "no such nick"; both
        end with the end-of-WHOIS reply. */
    function WhoisReplies(c: Client, target: string): (r: seq<Emit>)
      reads this`users, c`nick, users.Values
      ensures |r| == (if Lower(target) in users then 3 else 2)
      ensures forall e | e in r :: e.to == {c}
      ensures r[|r| - 1] == Numeric(c, EndOfWhois, target + " :End of /WHOIS list")
      ensures Lower(target) !in users <==> r[0] == Numeric(c, NoSuchNick, target + " :No such nick/channel")
      ensures Lower(target) in users ==>
                var u := users[Lower(target)];
                r[0] == Numeric(c, WhoisUser, u.nick + " " + u.user + " " + u.host + " * :User") &&
                r[1] == Numeric(c, WhoisServer, u.nick + " " + serverName + " :" + networkName)
    {
      var last := Numeric(c, EndOfWhois, target + " :End of /WHOIS list");
      var missing := Numeric(c, NoSuchNick, target + " :No such nick/channel");
      if Lower(target) in users then
        var u := users[Lower(target)];
        var text := u.nick + " " + u.user + " " + u.host + " * :User";
        NumericCode(serverName, WhoisUser, c.nick, text, NoSuchNick, c.nick, target + " :No such nick/channel");
        [Numeric(c, WhoisUser, text), Numeric(c, WhoisServer, u.nick + " " + serverName + " :" + networkName), last]
      else [missing, last]
    }

    /** WHOIS finds a registered session under any spelling of its
        nickname that lower-cases to its key, and reports that session. */
    lemma WhoisFindsSession(c: Client, x: Client, target: string)
      requires Valid() && Lower(x.nick) in users && users[Lower(x.nick)] == x
      requires Lower(target) == Lower(x.nick)
      ensures |WhoisReplies(c, target)| == 3
      ensures WhoisReplies(c, target)[0] == Numeric(c, WhoisUser, x.nick + " " + x.user + " " + x.host + " * :User")
    {
    }

    /** MODE: a query of an existing channel is answered with the fixed
        modes `+nt` (raw numeric 324); anything else is ignored. */
    function ModeReply(c: Client, target: string): (r: seq<Emit>)
      reads this`channels, c`nick
      ensures r != [] <==> |target| >= 1 && target[0] == '#' && Lower(target) in channels
      ensures forall e | e in r :: e == Emit({c}, ":" + serverName + " 324 " + c.nick + " " + Lower(target) + " +nt")
    {
      if |target| >= 1 && target[0] == '#' && Lower(target) in channels then
        [Emit({c}, ":" + serverName + " 324 " + c.nick + " " + Lower(target) + " +nt")]
      else []
    }

    // -------------------------------------------------------------------
    // Commands that change the registry
    // -------------------------------------------------------------------

    /** The registry side of a successful NICK: the entry under the old
        nickname goes, the client is listed under the new one. */
    method Rekey(c: Client, nick: string)
      requires Valid() && c in sessions && Lower(nick) !in users
      modifies this`users, c`nick
      ensures users == (old(users) - {Lower(old(c.nick))})[Lower(nick) := c] && c.nick == nick
      ensures Valid()
    {
      var key := Lower(c.nick);
      if key in users {
        users := users - {key};
      } else {
        assert users - {key} == users;
      }
      c.nick := nick;
      users := users[Lower(nick) := c];
      Rekeyed(c);
    }

    /** The invariant after `c` is listed under its new nickname only. */
    twostate lemma Rekeyed(c: Client)
      requires old(Valid()) && c in sessions && sessions == old(sessions)
      requires users == (old(users) - {Lower(old(c.nick))})[Lower(c.nick) := c]
      requires channels == old(channels) && topics == old(topics)
      requires forall x | x in sessions :: x.channels == old(x.channels)
      requires forall x | x in sessions && x != c :: x.nick == old(x.nick)
      ensures Valid()
    {
      assert Rooms() == old(Rooms());
      forall k | k in users ensures users[k] in sessions && Lower(users[k].nick) == k {
        if k != Lower(c.nick) {
          assert old(users)[k] != c;
        }
      }
    }

    /** The audience of a NICK change: the client and everyone in a
        channel on its list. */
    method NickAudience(c: Client) returns (neighbors: set<Client>)
      ensures neighbors == {c} + Sharers(channels, c.channels)
    {
      neighbors := {c};
      var i := 0;
      while i < |c.channels|
        invariant i <= |c.channels| && neighbors == {c} + Sharers(channels, c.channels[..i])
      {
        var channel := c.channels[i];
        TakeNext(c.channels, i);
        if channel in channels {
          neighbors := neighbors + (set x | x in channels[channel]);
        }
        i := i + 1;
      }
      assert c.channels[..i] == c.channels;
    }

    /** What NICK of `nick` does, given the registry `users0` and the
        client's nickname `nick0` and flag `nickSet0` before it. */
    ghost predicate Renamed(c: Client, nick: string, out: seq<Emit>,
                            users0: map<string, Client>, nick0: string, nickSet0: bool)
      reads this`users, this`channels, c
    {
      (!IsValidNickname(nick) ==> out == [Numeric(c, ErroneousNickname, nick + " :Erroneous nickname")]) &&
      (IsValidNickname(nick) && Lower(nick) in users0 ==>
         out == [Numeric(c, NicknameInUse, ":Nickname already in use")]) &&
      (!IsValidNickname(nick) || Lower(nick) in users0 ==>
         users == users0 && c.nick == nick0 && c.nickSet == nickSet0) &&
      (IsValidNickname(nick) && Lower(nick) !in users0 ==>
         users == (users0 - {Lower(nick0)})[Lower(nick) := c] && c.nick == nick && c.nickSet &&
         out == (if nickSet0
                 then [Emit({c} + Sharers(channels, c.channels), ":" + ComputeId(nick0, c.user, c.host) + " NICK " + nick)]
                 else []))
    }

    /** NICK: a malformed nickname is refused with 432 and one already
        listed with 433, both leaving everything as it was. Otherwise the
        client is rekeyed under the new nickname, and the change is
        announced to the client and everyone sharing a channel with it,
        but only once a nickname had been set before. */
    method Nick(c: Client, nick: string) returns (out: seq<Emit>)
      requires Valid() && c in sessions
      modifies this`users, c`nick, c`nickSet
      ensures Renamed(c, nick, out, old(users), old(c.nick), old(c.nickSet))
      ensures Valid()
    {
      if !IsValidNickname(nick) {
        out := [Numeric(c, ErroneousNickname, nick + " :Erroneous nickname")];
        Unaffected();
      } else if Lower(nick) in users {
        out := [Numeric(c, NicknameInUse, ":Nickname already in use")];
        Unaffected();
      } else {
        out := ChangeNick(c, nick);
      }
    }

    /** An accepted NICK: the client is listed under its new nickname, and
        when it had set one before, it and everyone sharing a channel with
        it see the change under its old identity. */
    method ChangeNick(c: Client, nick: string) returns (out: seq<Emit>)
      requires Valid() && c in sessions && Lower(nick) !in users
      modifies this`users, c`nick, c`nickSet
      ensures users == (old(users) - {Lower(old(c.nick))})[Lower(nick) := c] && c.nick == nick && c.nickSet
      ensures out == (if old(c.nickSet)
                      then [Emit({c} + Sharers(channels, c.channels), ":" + ComputeId(old(c.nick), c.user, c.host) + " NICK " + nick)]
                      else [])
      ensures Valid()
    {
      var oldNick := c.nick;
      Rekey(c, nick);
      out := [];
      if c.nickSet {
        var neighbors := NickAudience(c);
        out := [Emit(neighbors, ":" + ComputeId(oldNick, c.user, c.host) + " NICK " + nick)];
      }
      c.nickSet := true;
    }

    /** USER: the client's user name is replaced, then the registration
        replies and the MOTD follow, all to the client alone. */
    method User(c: Client, user: string) returns (out: seq<Emit>)
      requires Valid() && c in sessions
      modifies c`user
      ensures c.user == user
      ensures out == Greeting(c) + MotdReplies(c, c.nick)
      ensures forall e | e in out :: e.to == {c}
      ensures Valid()
    {
      c.user := user;
      Unaffected();
      var motdOut := SendMotd(c);
      out := Greeting(c) + motdOut;
    }

    /** The nicknames of a member list, in order. */
    function Nicks(members: seq<Client>): (r: seq<string>)
      reads members
      ensures |r| == |members| && forall i | 0 <= i < |r| :: r[i] == members[i].nick
    {
      seq(|members|, i requires 0 <= i < |members| reads members => members[i].nick)
    }

    /** The NAMES replies after a JOIN: the members' nicknames, then the
        end marker. */
    function NamesReplies(c: Client, lc: string, members: seq<Client>): seq<Emit>
      reads c`nick, members
    {
      [Numeric(c, NameReply, "= " + lc + " :" + JoinWith(Nicks(members), " ")),
       Numeric(c, EndOfNames, lc + " :End of /NAMES list")]
    }

    /** The registry side of a new JOIN: the channel is appended to the
        client's list and the client to the channel's list, creating the
        channel when it does not exist. */
    method AddMember(c: Client, lc: string)
      requires Valid() && c in sessions && lc !in c.channels && Lower(lc) == lc
      modifies this`channels, c`channels
      ensures channels == old(channels)[lc := MembersOf(old(channels), lc) + [c]]
      ensures c.channels == old(c.channels) + [lc]
      ensures Valid()
    {
      c.channels := c.channels + [lc];
      var clients := ChannelGet(lc);
      channels := channels[lc := clients + [c]];
      Joined(c);
    }

    /** The invariant after `c` joins, on both sides, the channel now at
        the end of its list. */
    twostate lemma Joined(c: Client)
      requires old(Valid()) && c in sessions && sessions == old(sessions) && users == old(users)
      requires c.channels != [] && c.channels == old(c.channels) + [c.channels[|c.channels| - 1]]
      requires var ch := c.channels[|c.channels| - 1];
               ch !in old(c.channels) && Lower(ch) == ch &&
               channels == old(channels)[ch := MembersOf(old(channels), ch) + [c]]
      requires topics == old(topics)
      requires forall x | x in sessions :: x.nick == old(x.nick)
      requires forall x | x in sessions && x != c :: x.channels == old(x.channels)
      ensures Valid()
    {
      var ch := c.channels[|c.channels| - 1];
      ghost var rooms := old(Rooms());
      assert rooms[c] == old(c.channels);
      JoinConsistent(old(channels), topics, rooms, c, ch);
      StillValid(c);
    }

    /** What JOIN of one name does, given the channel registry `chans0` and
        the client's own list `mine0` before it: a bad name is refused with
        479; a channel already joined is left as it is and its topic and
        names are sent again; otherwise the client is appended on both
        sides and every member, the joiner included, sees the JOIN. */
    ghost predicate JoinedOne(c: Client, channel: string, out: seq<Emit>,
                              chans0: map<string, seq<Client>>, mine0: seq<string>)
      reads this`channels, this`topics, c, MembersOf(channels, Lower(channel))
    {
      var lc := Lower(channel);
      if !IsValidChannel(channel) then
        channels == chans0 && c.channels == mine0 &&
        out == [Numeric(c, BadChannelName, channel + " :Bad channel name")]
      else if lc in mine0 then
        channels == chans0 && c.channels == mine0 &&
        out == [TopicReply(c, lc)] + NamesReplies(c, lc, MembersOf(channels, lc))
      else
        channels == chans0[lc := MembersOf(chans0, lc) + [c]] &&
        c.channels == mine0 + [lc] &&
        out == [Emit(set x | x in channels[lc], ":" + c.Id() + " JOIN " + lc), TopicReply(c, lc)] +
               NamesReplies(c, lc, channels[lc])
    }

    /** JOIN of one channel name. A malformed name is refused with 479. A
        channel the client is already in changes nothing and only repeats
        the topic and the names. Otherwise the client joins on both sides,
        every member (the newcomer too) sees the JOIN, and the newcomer
        gets the topic and the names. */
    method JoinOne(c: Client, channel: string) returns (out: seq<Emit>)
      requires Valid() && c in sessions
      modifies this`channels, c`channels
      ensures JoinedOne(c, channel, out, old(channels), old(c.channels))
      ensures OneJoin(channel, c, old(c.channels), old(channels), c.channels, channels)
      ensures IsValidChannel(channel) ==>
                Lower(channel) in c.channels && Lower(channel) in channels && c in channels[Lower(channel)]
      ensures old(c.channels) <= c.channels
      ensures old(c.channels) == [] && IsValidChannel(channel) ==> FirstChannel(c) == Lower(channel)
      ensures old(c.channels) != [] ==> FirstChannel(c) == old(FirstChannel(c))
      ensures Valid()
    {
      if !IsValidChannel(channel) {
        out := [Numeric(c, BadChannelName, channel + " :Bad channel name")];
        Unaffected();
      } else {
        LowerIdempotent(channel);
        var lc := Lower(channel);
        if lc in c.channels {
          out := Rejoin(c, lc);
          Unaffected();
        } else {
          AddMember(c, lc);
          var clients := channels[lc];
          out := [Emit(set x | x in clients, ":" + c.Id() + " JOIN " + lc), TopicReply(c, lc)] + NamesReplies(c, lc, clients);
        }
      }
    }

    /** JOIN of a channel the client is already in. */
    method Rejoin(c: Client, lc: string) returns (out: seq<Emit>)
      requires Valid() && c in sessions && lc in c.channels
      modifies this`channels
      ensures channels == old(channels) && lc in channels && c in channels[lc]
      ensures out == [TopicReply(c, lc)] + NamesReplies(c, lc, MembersOf(channels, lc))
    {
      InOwnChannel(c, lc);
      var clients := ChannelGet(lc);
      out := [TopicReply(c, lc)] + NamesReplies(c, lc, clients);
    }

    /** A channel on a session's own list exists and lists the session. */
    lemma InOwnChannel(c: Client, lc: string)
      requires Valid() && c in sessions && lc in c.channels
      ensures lc in channels && c in channels[lc]
    {
      Roomed(channels, topics, Rooms(), c, lc);
    }

    /** Every valid name a session has joined is a channel that lists it. */
    lemma InOwnChannels(c: Client, names: seq<string>)
      requires Valid() && c in sessions
      requires forall j | 0 <= j < |names| && IsValidChannel(names[j]) :: Lower(names[j]) in c.channels
      ensures forall name | name in names && IsValidChannel(name) ::
                Lower(name) in c.channels && Lower(name) in channels && c in channels[Lower(name)]
    {
      forall name | name in names && IsValidChannel(name)
        ensures Lower(name) in c.channels && Lower(name) in channels && c in channels[Lower(name)]
      {
        InOwnChannel(c, Lower(name));
      }
    }

    /** JOIN: each comma-separated name is joined in turn. Afterwards the
        client is in every well-formed channel named, on both sides, still
        in every channel it was in before, and in no other new one; the
        channels not named keep their member lists. A list without a comma
        is a single name, and the loop over it is one JoinOne. */
    method Join(c: Client, list: string) returns (out: seq<Emit>)
      requires Valid() && c in sessions
      modifies this`channels, c`channels
      ensures forall name | name in SplitSep(list, ",") && IsValidChannel(name) ::
                Lower(name) in c.channels && Lower(name) in channels && c in channels[Lower(name)]
      ensures old(c.channels) <= c.channels
      ensures forall lc | lc in c.channels :: lc in old(c.channels) || lc in JoinTargets(SplitSep(list, ","))
      ensures old(channels).Keys <= channels.Keys
      ensures forall k | k in channels && k !in JoinTargets(SplitSep(list, ",")) ::
                k in old(channels) && channels[k] == old(channels)[k]
      ensures ',' !in list ==> JoinedOne(c, list, out, old(channels), old(c.channels))
      ensures (c.channels, channels) == JoinFold(SplitSep(list, ","), c, old(c.channels), old(channels))
      ensures Valid()
    {
      var names := SplitSep(list, ",");
      if ',' !in list {
        SplitWithoutSeparator(list, ",");
        JoinFoldOne(names, c, old(c.channels), old(channels));
        out := JoinOne(c, list);
      } else {
        out := JoinEach(c, names);
      }
      JoinFoldSoFar(names, |names|, c, old(c.channels), old(channels));
      assert names[..|names|] == names;
      JoinSoFarDone(names, old(c.channels), old(channels), c.channels, channels);
      InOwnChannels(c, names);
    }

    /** The loop of JOIN over the names of the list, in order: the state
        it leaves is the fold of JoinOne's step over the names. */
    method JoinEach(c: Client, names: seq<string>) returns (out: seq<Emit>)
      requires Valid() && c in sessions
      modifies this`channels, c`channels
      ensures Valid() && (c.channels, channels) == JoinFold(names, c, old(c.channels), old(channels))
    {
      out := [];
      var i := 0;
      while i < |names|
        invariant i <= |names| && Valid()
        invariant (c.channels, channels) == JoinFold(names[..i], c, old(c.channels), old(channels))
      {
        var more := JoinStepOf(c, names[i]);
        assert names[..i + 1][..i] == names[..i];
        out := out + more;
        i := i + 1;
      }
      assert names[..i] == names;
    }

    /** One turn of JoinEach's loop: JoinOne, seen only through the step it
        takes on the state. */
    method JoinStepOf(c: Client, channel: string) returns (more: seq<Emit>)
      requires Valid() && c in sessions
      modifies this`channels, c`channels
      ensures Valid() && (c.channels, channels) == JoinStep(channel, c, old(c.channels), old(channels))
    {
      more := JoinOne(c, channel);
    }

    /** PART of one channel name: only a `#` channel that exists and that
        the client is in is left; the client and the members left behind
        see the PART. Anything else changes nothing. */
    ghost predicate PartedOne(c: Client, channel: string, out: seq<Emit>, chans0: map<string, seq<Client>>,
                              topics0: map<string, string>, mine0: seq<string>)
      reads this`channels, this`topics, c
    {
      var lc := Lower(channel);
      if Hashed(channel) && lc in chans0 && lc in mine0 then
        channels == Depart(chans0, c, lc) && topics == Restrict(topics0, channels.Keys) &&
        c.channels == Remove(mine0, lc) &&
        out == [Emit({c} + (set x | x in MembersOf(channels, lc)), ":" + c.Id() + " PART " + lc)]
      else
        channels == chans0 && topics == topics0 && c.channels == mine0 && out == []
    }

    method PartOne(c: Client, channel: string) returns (out: seq<Emit>)
      requires Valid() && c in sessions
      modifies this`channels, this`topics, c`channels
      ensures PartedOne(c, channel, out, old(channels), old(topics), old(c.channels))
      ensures OnePart(channel, c, old(c.channels), old(channels), c.channels, channels)
      ensures Hashed(channel) ==> Lower(channel) !in c.channels
      ensures forall lc | lc in c.channels :: lc in old(c.channels)
      ensures Valid()
    {
      var lc := Lower(channel);
      OwnList(c);
      if Hashed(channel) && lc in channels && lc in c.channels {
        LowerIdempotent(channel);
        LeaveChannelValid(c, lc);
        out := [Emit({c} + (set x | x in Members(lc)), ":" + c.Id() + " PART " + lc)];
      } else {
        out := [];
      }
    }

    /** PART: each comma-separated name is left in turn. Afterwards the
        client is in none of the `#` channels named, still in every channel
        not named, and has joined nothing; the channels not named keep
        their member lists. A list without a comma is a single name, and
        the loop over it is one PartOne. */
    method Part(c: Client, list: string) returns (out: seq<Emit>)
      requires Valid() && c in sessions
      modifies this`channels, this`topics, c`channels
      ensures forall name | name in SplitSep(list, ",") && Hashed(name) :: Lower(name) !in c.channels
      ensures forall lc | lc in c.channels :: lc in old(c.channels)
      ensures forall lc | lc in old(c.channels) && lc !in PartTargets(SplitSep(list, ",")) :: lc in c.channels
      ensures channels.Keys <= old(channels).Keys
      ensures forall k | k in old(channels) && k !in PartTargets(SplitSep(list, ",")) ::
                k in channels && channels[k] == old(channels)[k]
      ensures ',' !in list ==> PartedOne(c, list, out, old(channels), old(topics), old(c.channels))
      ensures (c.channels, channels) == PartFold(SplitSep(list, ","), c, old(c.channels), old(channels))
      ensures Valid()
    {
      OwnList(c);
      var names := SplitSep(list, ",");
      if ',' !in list {
        SplitWithoutSeparator(list, ",");
        PartFoldOne(names, c, old(c.channels), old(channels));
        out := PartOne(c, list);
      } else {
        out := PartEach(c, names);
      }
      PartFoldSoFar(names, |names|, c, old(c.channels), old(channels));
      assert names[..|names|] == names;
    }

    /** The loop of PART over the names of the list, in order: the state
        it leaves is the fold of PartOne's step over the names. */
    method PartEach(c: Client, names: seq<string>) returns (out: seq<Emit>)
      requires Valid() && c in sessions
      modifies this`channels, this`topics, c`channels
      ensures Valid() && (c.channels, channels) == PartFold(names, c, old(c.channels), old(channels))
    {
      out := [];
      var i := 0;
      while i < |names|
        invariant i <= |names| && Valid()
        invariant (c.channels, channels) == PartFold(names[..i], c, old(c.channels), old(channels))
      {
        var more := PartStepOf(c, names[i]);
        assert names[..i + 1][..i] == names[..i];
        out := out + more;
        i := i + 1;
      }
      assert names[..i] == names;
    }

    /** One turn of PartEach's loop: PartOne, seen only through the step it
        takes on the state. */
    method PartStepOf(c: Client, channel: string) returns (more: seq<Emit>)
      requires Valid() && c in sessions
      modifies this`channels, this`topics, c`channels
      ensures Valid() && (c.channels, channels) == PartStep(channel, c, old(c.channels), old(channels))
    {
      more := PartOne(c, channel);
    }

    /** What TOPIC of `channel` does, given the topics `topics0` before it. */
    ghost predicate TopicDone(c: Client, channel: string, content: Option<string>, out: seq<Emit>,
                              topics0: map<string, string>)
      reads this`channels, this`topics, c
    {
      var lc := Lower(channel);
      if lc !in channels then
        topics == topics0 && out == [Numeric(c, NoSuchChannel, channel + " :No such channel")]
      else if lc !in c.channels then
        topics == topics0 && out == [Numeric(c, NoSuchChannel, channel + " :You're not on that channel")]
      else if content.Some? then
        topics == topics0[lc := content.value] &&
        out == [Emit(set x | x in channels[lc], ":" + c.Id() + " TOPIC " + lc + " :" + content.value)]
      else
        topics == topics0 && out == [TopicReply(c, lc)]
    }

    /** TOPIC: refused with 403 for a channel that does not exist or that
        the client is not in. With content (possibly empty) the topic is
        set and every member sees it; without, the topic is shown. */
    method TopicCommand(c: Client, channel: string, content: Option<string>) returns (out: seq<Emit>)
      requires Valid() && c in sessions
      modifies this`topics
      ensures Lower(channel) in channels && Lower(channel) in c.channels && content.Some? ==>
                TopicReply(c, Lower(channel)) ==
                  if content.value != "" then Numeric(c, Topic, Lower(channel) + " :" + content.value)
                  else Numeric(c, NoTopicSet, Lower(channel) + " :No topic is set")
      ensures TopicDone(c, channel, content, out, old(topics))
      ensures Valid()
    {
      var lc := Lower(channel);
      if lc !in channels {
        out := [Numeric(c, NoSuchChannel, channel + " :No such channel")];
      } else if lc !in c.channels {
        out := [Numeric(c, NoSuchChannel, channel + " :You're not on that channel")];
      } else if content.Some? {
        TopicConsistent(channels, topics, Rooms(), lc, content.value);
        topics := topics[lc := content.value];
        out := [Emit(set x | x in channels[lc], ":" + c.Id() + " TOPIC " + lc + " :" + content.value)];
      } else {
        out := [TopicReply(c, lc)];
      }
    }

    // -------------------------------------------------------------------
    // Commands that only reply
    // -------------------------------------------------------------------

    /** How a PRIVMSG renders its content: a message without one carries
        the text "None". */
    function ContentOrNone(content: Option<string>): string
    {
      if content.Some? then content.value else "None"
    }

    /** A relayed message from `c` to `to`. */
    function PrivmsgLine(c: Client, to: string, content: Option<string>): string
      reads c
    {
      ":" + c.Id() + " PRIVMSG " + to + " :" + ContentOrNone(content)
    }

    /** PRIVMSG to one target. A `#` target reaches every other member of
        the channel, and only when the sender is a member; any other target
        is a nickname, reached when listed and answered with 401 when
        not. */
    function PrivmsgTo(c: Client, target: string, content: Option<string>): (r: seq<Emit>)
      reads this`channels, this`users, c
      ensures |r| <= 1
      ensures Hashed(target) ==>
                (r != [] <==> Lower(target) in channels && c in channels[Lower(target)])
      ensures Hashed(target) && r != [] ==>
                r[0].line == PrivmsgLine(c, Lower(target), content) &&
                (forall x | x in r[0].to :: x != c && x in Members(target)) &&
                (forall x | x in Members(target) && x != c :: x in r[0].to)
      ensures !Hashed(target) ==> |r| == 1
      ensures !Hashed(target) && Lower(target) in users ==>
                r[0] == Emit({users[Lower(target)]}, PrivmsgLine(c, target, content))
      ensures !Hashed(target) && Lower(target) !in users ==>
                r[0] == Numeric(c, NoSuchNick, target + " :No such nick/channel")
    {
      if Hashed(target) then
        var lc := Lower(target);
        if lc in channels && c in channels[lc] then
          [Emit((set x | x in channels[lc]) - {c}, PrivmsgLine(c, lc, content))]
        else []
      else if Lower(target) in users then
        [Emit({users[Lower(target)]}, PrivmsgLine(c, target, content))]
      else [Numeric(c, NoSuchNick, target + " :No such nick/channel")]
    }

    /** PRIVMSG to a list of targets, in order. */
    function PrivmsgEach(c: Client, targets: seq<string>, content: Option<string>): seq<Emit>
      reads this`channels, this`users, c
    {
      if targets == [] then []
      else PrivmsgEach(c, targets[..|targets| - 1], content) + PrivmsgTo(c, targets[|targets| - 1], content)
    }

    /** The target loop of PRIVMSG. */
    method Privmsg(c: Client, list: string, content: Option<string>) returns (out: seq<Emit>)
      ensures out == PrivmsgEach(c, SplitSep(list, ","), content)
    {
      var targets := SplitSep(list, ",");
      out := [];
      var i := 0;
      while i < |targets|
        invariant i <= |targets| && out == PrivmsgEach(c, targets[..i], content)
      {
        TakeNext(targets, i);
        out := out + PrivmsgTo(c, targets[i], content);
        i := i + 1;
      }
      assert targets[..i] == targets;
    }

    /** One WHO reply about `u`, naming `where` as its channel. */
    function WhoLine(c: Client, where: string, u: Client): Emit
      reads c`nick, u
    {
      Numeric(c, WhoReply, where + " " + u.user + " " + u.host + " " + serverName + " " + u.nick + " H :0 User")
    }

    /** The channel WHO names for a user: its first channel, or `*`. */
    function FirstChannel(u: Client): (r: string)
      reads u
      ensures u.channels != [] ==> r == u.channels[0]
      ensures u.channels == [] ==> r == "*"
    {
      if u.channels != [] then u.channels[0] else "*"
    }

    /** The replies WHO sends about `target`. */
    ghost predicate WhoAnswered(c: Client, target: string, out: seq<Emit>)
      reads this`channels, this`users, c`nick, users.Values, MembersOf(channels, Lower(target))
    {
      |out| >= 1 && out[|out| - 1] == Numeric(c, EndOfWho, target + " :End of /WHO list") &&
      (Hashed(target) ==>
         var members := MembersOf(channels, Lower(target));
         |out| == |members| + 1 &&
         forall i | 0 <= i < |members| :: out[i] == WhoLine(c, Lower(target), members[i])) &&
      (!Hashed(target) && Lower(target) !in users ==> |out| == 1) &&
      (!Hashed(target) && Lower(target) in users ==>
         var u := users[Lower(target)];
         |out| == 2 && out[0] == WhoLine(c, FirstChannel(u), u))
    }

    /** WHO: for a `#` target, one reply per member of the channel in
        order (none when it does not exist); otherwise one reply about the
        listed user, if any. The end-of-WHO reply always comes last. */
    method Who(c: Client, target: string) returns (out: seq<Emit>)
      ensures WhoAnswered(c, target, out)
    {
      out := [];
      if Hashed(target) {
        var lc := Lower(target);
        if lc in channels {
          var members := channels[lc];
          var i := 0;
          while i < |members|
            invariant i <= |members| && |out| == i
            invariant forall j | 0 <= j < i :: out[j] == WhoLine(c, lc, members[j])
          {
            out := out + [WhoLine(c, lc, members[i])];
            i := i + 1;
          }
        }
      } else if Lower(target) in users {
        var u := users[Lower(target)];
        out := [WhoLine(c, FirstChannel(u), u)];
      }
      out := out + [Numeric(c, EndOfWho, target + " :End of /WHO list")];
    }

    /** One LIST entry: the channel and its member count. */
    function ListEntry(c: Client, lc: string): Emit
      requires lc in channels
      reads this`channels, c`nick
    {
      Numeric(c, List, lc + " " + NatToString(|channels[lc]|) + " :")
    }

    /** `out` lists every channel once, in the order `order`, between the
        start and the end reply. */
    ghost predicate Listing(c: Client, out: seq<Emit>, order: seq<string>)
      reads this`channels, c`nick
    {
      NoDup(order) && (forall lc :: lc in order <==> lc in channels) &&
      |out| == |order| + 2 &&
      out[0] == Numeric(c, ListStart, "Channel :Users  Name") &&
      (forall i | 0 <= i < |order| :: out[i + 1] == ListEntry(c, order[i])) &&
      out[|out| - 1] == Numeric(c, ListEnd, "End of /LIST")
    }

    /** LIST: a start reply, one entry per channel, an end reply. The
        entries come in no particular order here: `order` is the order
        this run chose, each channel exactly once. */
    method ListChannels(c: Client) returns (out: seq<Emit>, ghost order: seq<string>)
      ensures Listing(c, out, order)
    {
      out := [Numeric(c, ListStart, "Channel :Users  Name")];
      order := [];
      var left := channels.Keys;
      while left != {}
        invariant left <= channels.Keys && NoDup(order)
        invariant forall lc :: lc in order <==> lc in channels && lc !in left
        invariant |out| == |order| + 1 && out[0] == Numeric(c, ListStart, "Channel :Users  Name")
        invariant forall i | 0 <= i < |order| :: out[i + 1] == ListEntry(c, order[i])
        decreases |left|
      {
        var lc :| lc in left;
        AppendFresh(order, lc);
        out := out + [ListEntry(c, lc)];
        order := order + [lc];
        left := left - {lc};
      }
      out := out + [Numeric(c, ListEnd, "End of /LIST")];
    }

    // -------------------------------------------------------------------
    // Dispatch
    // -------------------------------------------------------------------

    /** What `handle_command` answers to a verb that changes nothing: the
        reply each handler computes, nothing for a handler whose parameter
        is missing, and 421 for an unknown verb. */
    ghost predicate Answered(c: Client, cmd: Command, out: seq<Emit>)
      reads this`channels, this`users, c, users.Values, MembersOf(channels, Lower(FirstParam(cmd)))
    {
      var first := FirstParam(cmd);
      (cmd.verb !in Verbs ==> out == [Numeric(c, UnknownCommand, cmd.verb + " :Unknown command")]) &&
      (cmd.verb == "CAP" ==> out == CapReply(c, cmd)) &&
      (cmd.verb == "MOTD" ==> out == MotdReplies(c, c.nick)) &&
      (cmd.verb == "PING" ==> out == PingReply(c, cmd)) &&
      (cmd.verb == "PONG" ==> out == []) &&
      (cmd.verb == "LIST" ==> exists order :: Listing(c, out, order)) &&
      (cmd.verb in {"WHOIS", "PRIVMSG", "MODE", "WHO"} && !HasParams(cmd) ==> out == []) &&
      (cmd.verb == "WHOIS" && HasParams(cmd) ==> out == WhoisReplies(c, first)) &&
      (cmd.verb == "PRIVMSG" && HasParams(cmd) ==> out == PrivmsgEach(c, SplitSep(first, ","), cmd.content)) &&
      (cmd.verb == "MODE" && HasParams(cmd) ==> out == ModeReply(c, first)) &&
      (cmd.verb == "WHO" && HasParams(cmd) ==> WhoAnswered(c, first, out))
    }

    /** The reason QUIT passes on: the content, or nothing. */
    function QuitReason(cmd: Command): string
    {
      if cmd.content.Some? && cmd.content.value != "" then cmd.content.value else ""
    }

    /** What `handle_command` does with `cmd` from `c`, given the state
        before it (`users0`, `chans0`, `topics0`, and the client's `nick0`,
        `nickSet0`, `user0` and own list `mine0`): which parts of the state
        each verb may change, and for every verb the effect and the lines
        sent of the handler it reaches. */
    ghost predicate Applied(c: Client, cmd: Command, out: seq<Emit>,
                            users0: map<string, Client>, chans0: map<string, seq<Client>>,
                            topics0: map<string, string>, nick0: string, nickSet0: bool, user0: string,
                            mine0: seq<string>)
      reads this`users, this`channels, this`topics, c, users.Values, MembersOf(channels, Lower(FirstParam(cmd)))
    {
      var first := FirstParam(cmd);
      var named := users == users0 && c.nick == nick0 && c.nickSet == nickSet0;
      var joined := channels == chans0 && c.channels == mine0;
      if cmd.verb in {"NICK", "USER", "JOIN", "PART", "TOPIC"} && !HasParams(cmd) then
        out == [] && named && c.user == user0 && joined && topics == topics0
      else match cmd.verb
        case "NICK" =>
          Renamed(c, first, out, users0, nick0, nickSet0) && c.user == user0 && joined && topics == topics0
        case "USER" =>
          c.user == first && out == Greeting(c) + MotdReplies(c, c.nick) && named && joined && topics == topics0
        case "JOIN" =>
          (c.channels, channels) == JoinFold(SplitSep(first, ","), c, mine0, chans0) &&
          (',' !in first ==> JoinedOne(c, first, out, chans0, mine0)) &&
          named && c.user == user0 && topics == topics0
        case "QUIT" =>
          users == users0 - {Lower(c.nick)} && channels == DepartAll(chans0, c, mine0) &&
          topics == Restrict(topics0, channels.Keys) && c.channels == [] &&
          (forall k | k in channels :: c !in channels[k]) &&
          out == [Emit(CoMembers(chans0, c, mine0), QuitLine(c, QuitReason(cmd)))] &&
          c.nick == nick0 && c.nickSet == nickSet0 && c.user == user0
        case "PART" =>
          (c.channels, channels) == PartFold(SplitSep(first, ","), c, mine0, chans0) &&
          (',' !in first ==> PartedOne(c, first, out, chans0, topics0, mine0)) &&
          named && c.user == user0
        case "TOPIC" =>
          TopicDone(c, first, cmd.content, out, topics0) && named && c.user == user0 && joined
        case _ =>
          Answered(c, cmd, out) && named && c.user == user0 && joined && topics == topics0
    }

    /** `handle_command`: one parsed command from `c`, dispatched on its
        verb to the handler of that verb; every command keeps the registry
        invariant. */
    method HandleCommand(c: Client, cmd: Command) returns (out: seq<Emit>)
      requires Valid() && c in sessions
      modifies this`users, this`channels, this`topics, c`nick, c`nickSet, c`user, c`channels
      ensures Applied(c, cmd, out, old(users), old(channels), old(topics), old(c.nick), old(c.nickSet), old(c.user),
                      old(c.channels))
      ensures Valid()
    {
      match cmd.verb
      case "NICK" =>
        out := OnNick(c, cmd);
      case "USER" =>
        out := OnUser(c, cmd);
      case "JOIN" =>
        out := OnJoin(c, cmd);
      case "QUIT" =>
        out := OnQuit(c, cmd);
      case "PART" =>
        out := OnPart(c, cmd);
      case "TOPIC" =>
        out := OnTopic(c, cmd);
      case _ =>
        out := HandleQuery(c, cmd);
    }

    /** The NICK case: `Nick` with the first parameter, if any. */
    method OnNick(c: Client, cmd: Command) returns (out: seq<Emit>)
      requires Valid() && c in sessions && cmd.verb == "NICK"
      modifies this`users, c`nick, c`nickSet
      ensures Applied(c, cmd, out, old(users), old(channels), old(topics), old(c.nick), old(c.nickSet), old(c.user),
                      old(c.channels))
      ensures Valid()
    {
      out := [];
      if HasParams(cmd) {
        out := Nick(c, FirstParam(cmd));
      }
    }

    /** The USER case: `User` with the first parameter, if any. */
    method OnUser(c: Client, cmd: Command) returns (out: seq<Emit>)
      requires Valid() && c in sessions && cmd.verb == "USER"
      modifies c`user
      ensures Applied(c, cmd, out, old(users), old(channels), old(topics), old(c.nick), old(c.nickSet), old(c.user),
                      old(c.channels))
      ensures Valid()
    {
      out := [];
      if HasParams(cmd) {
        out := User(c, FirstParam(cmd));
      }
    }

    /** The JOIN case: `Join` of the first parameter, if any. */
    method OnJoin(c: Client, cmd: Command) returns (out: seq<Emit>)
      requires Valid() && c in sessions && cmd.verb == "JOIN"
      modifies this`channels, c`channels
      ensures Applied(c, cmd, out, old(users), old(channels), old(topics), old(c.nick), old(c.nickSet), old(c.user),
                      old(c.channels))
      ensures Valid()
    {
      out := [];
      if HasParams(cmd) {
        out := Join(c, FirstParam(cmd));
      }
    }

    /** The QUIT case: the client is removed, with the content as reason. */
    method OnQuit(c: Client, cmd: Command) returns (out: seq<Emit>)
      requires Valid() && c in sessions && cmd.verb == "QUIT"
      modifies this`users, this`channels, this`topics, c`channels
      ensures Applied(c, cmd, out, old(users), old(channels), old(topics), old(c.nick), old(c.nickSet), old(c.user),
                      old(c.channels))
      ensures Valid()
    {
      out := RemoveClient(c, QuitReason(cmd));
    }

    /** The PART case: `Part` of the first parameter, if any. */
    method OnPart(c: Client, cmd: Command) returns (out: seq<Emit>)
      requires Valid() && c in sessions && cmd.verb == "PART"
      modifies this`channels, this`topics, c`channels
      ensures Applied(c, cmd, out, old(users), old(channels), old(topics), old(c.nick), old(c.nickSet), old(c.user),
                      old(c.channels))
      ensures Valid()
    {
      out := [];
      if HasParams(cmd) {
        out := Part(c, FirstParam(cmd));
      }
    }

    /** The TOPIC case: `TopicCommand` on the first parameter, if any. */
    method OnTopic(c: Client, cmd: Command) returns (out: seq<Emit>)
      requires Valid() && c in sessions && cmd.verb == "TOPIC"
      modifies this`topics
      ensures Applied(c, cmd, out, old(users), old(channels), old(topics), old(c.nick), old(c.nickSet), old(c.user),
                      old(c.channels))
      ensures Valid()
    {
      out := [];
      if HasParams(cmd) {
        out := TopicCommand(c, FirstParam(cmd), cmd.content);
      }
    }

    /** The commands that only reply and change nothing, and the reply to
        an unknown command. */
    method HandleQuery(c: Client, cmd: Command) returns (out: seq<Emit>)
      requires Valid() && c in sessions
      requires cmd.verb !in {"NICK", "USER", "JOIN", "QUIT", "PART", "TOPIC"}
      ensures Answered(c, cmd, out)
    {
      var first := FirstParam(cmd);
      out := [];
      match cmd.verb
      case "CAP" =>
        out := CapReply(c, cmd);
      case "MOTD" =>
        out := SendMotd(c);
      case "PING" =>
        out := PingReply(c, cmd);
      case "PONG" =>
      case "LIST" =>
        ghost var order;
        out, order := ListChannels(c);
      case "WHOIS" =>
        if HasParams(cmd) {
          out := WhoisReplies(c, first);
        }
      case "PRIVMSG" =>
        if HasParams(cmd) {
          out := Privmsg(c, first, cmd.content);
        }
      case "MODE" =>
        if HasParams(cmd) {
          out := ModeReply(c, first);
        }
      case "WHO" =>
        if HasParams(cmd) {
          out := Who(c, first);
        }
      case _ =>
        out := [Numeric(c, UnknownCommand, cmd.verb + " :Unknown command")];
    }

    /** `handle`: a received buffer is stripped and cut into lines; blank
        lines and lines that do not parse are skipped, every other line is
        handled as a command, in order. A buffer holding no command sends
        nothing and changes nothing; a buffer holding one command has
        exactly that command's effect. */
    method Handle(c: Client, text: string) returns (out: seq<Emit>)
      requires Valid() && c in sessions
      modifies this`users, this`channels, this`topics, c`nick, c`nickSet, c`user, c`channels
      ensures Commands(text) == [] ==> out == [] && unchanged(this, c)
      ensures |Commands(text)| == 1 ==>
                Applied(c, Commands(text)[0], out, old(users), old(channels), old(topics), old(c.nick),
                        old(c.nickSet), old(c.user), old(c.channels))
      ensures Valid()
    {
      out := HandleLines(c, Lines(text));
    }

    /** The loop of `handle` over the lines of a buffer. Its single-command
        outcome is compared with `true` so that the verifier does not split
        it into the conjuncts of `Applied`. */
    method HandleLines(c: Client, lines: seq<string>) returns (out: seq<Emit>)
      requires Valid() && c in sessions
      modifies this`users, this`channels, this`topics, c`nick, c`nickSet, c`user, c`channels
      ensures Dispatched(lines) == [] ==> out == [] && unchanged(this, c)
      ensures |Dispatched(lines)| == 1 ==>
                Applied(c, Dispatched(lines)[0], out, old(users), old(channels), old(topics), old(c.nick),
                        old(c.nickSet), old(c.user), old(c.channels)) == true
      ensures Valid()
    {
      out := [];
      ghost var handled := [];
      var i := 0;
      while i < |lines|
        invariant i <= |lines| && Valid()
        invariant handled == Dispatched(lines[..i])
        invariant handled == [] ==> out == [] && unchanged(this, c)
        invariant |handled| == 1 ==>
                    Applied(c, handled[0], out, old(users), old(channels), old(topics), old(c.nick),
                            old(c.nickSet), old(c.user), old(c.channels)) == true
      {
        DispatchedNext(lines, i);
        var got := LineCommand(lines[i]);
        ghost var before := handled;
        handled := handled + got;
        if got != [] {
          var more := HandleCommand(c, got[0]);
          out := out + more;
          if before == [] {
            assert out == more && handled[0] == got[0];
          } else {
            assert |handled| >= 2;
          }
        }
        i := i + 1;
      }
      assert lines[..i] == lines;
    }
  }
}
