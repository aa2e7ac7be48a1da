/** The channel registry as values: the map from a lower-cased channel
    name to its member list, and the map from channel name to topic.
    `leave_channel` and the disconnect cascade change these maps exactly
    as the functions below describe; the server's methods are proved
    against them. */
module Registry {
  import opened Text
  import opened Lists

  /** A channel exists only while it has members, and lists each member
      once. */
  predicate Populated<C(==)>(chans: map<string, seq<C>>)
  {
    forall k | k in chans :: chans[k] != [] && NoDup(chans[k])
  }

  /** The channel side of `leave_channel`: drop the client from the
      channel's list if it is there, and drop the channel once its list
      is empty. */
  function Depart<C(==)>(chans: map<string, seq<C>>, c: C, lc: string): (r: map<string, seq<C>>)
    ensures r.Keys <= chans.Keys
    ensures forall k | k in chans && k != lc :: k in r && r[k] == chans[k]
    ensures lc in chans && c in chans[lc] && |chans[lc]| == 1 ==> lc !in r
    ensures lc in chans && !(c in chans[lc] && |chans[lc]| == 1) && chans[lc] != [] ==> lc in r
    ensures lc in r ==> forall x | x in r[lc] :: x in chans[lc]
    ensures lc in r ==> forall x | x in chans[lc] && x != c :: x in r[lc]
    ensures Populated(chans) ==> Populated(r) && (lc in r ==> c !in r[lc])
  {
    if lc in chans && c in chans[lc] then
      var rest := Remove(chans[lc], c);
      if rest == [] then chans - {lc} else chans[lc := rest]
    else chans
  }

  /** The topics that survive a change of the channel set: a topic is kept
      exactly while its channel exists. */
  function Restrict(topics: map<string, string>, keys: set<string>): (r: map<string, string>)
    ensures r.Keys == topics.Keys * keys
    ensures forall k | k in r :: r[k] == topics[k]
  {
    map k | k in topics && k in keys :: topics[k]
  }

  /** Restricting twice is restricting to the smaller set. */
  lemma RestrictTwice(topics: map<string, string>, a: set<string>, b: set<string>)
    requires b <= a
    ensures Restrict(Restrict(topics, a), b) == Restrict(topics, b)
  {
  }

  /** Keeping topics for all channels keeps them all; losing one channel
      loses its topic only. */
  lemma RestrictKeys(topics: map<string, string>, keys: set<string>, lc: string)
    requires topics.Keys <= keys
    ensures Restrict(topics, keys) == topics
    ensures Restrict(topics, keys - {lc}) == topics - {lc}
  {
  }

  /** Leaving channels one after the other, in the order given. */
  function DepartAll<C(==)>(chans: map<string, seq<C>>, c: C, names: seq<string>): (r: map<string, seq<C>>)
    ensures r.Keys <= chans.Keys
    ensures Populated(chans) ==> Populated(r)
  {
    if names == [] then chans
    else Depart(DepartAll(chans, c, names[..|names| - 1]), c, names[|names| - 1])
  }

  /** Channels not named are untouched. */
  lemma {:induction false} DepartAllOther<C>(chans: map<string, seq<C>>, c: C, names: seq<string>, k: string)
    requires k !in names
    ensures k in DepartAll(chans, c, names) <==> k in chans
    ensures k in chans ==> DepartAll(chans, c, names)[k] == chans[k]
  {
    if names != [] {
      DepartAllOther(chans, c, names[..|names| - 1], k);
    }
  }

  /** After leaving a list of channels without repeats, the client is in
      none of them, and every other member is still where it was. */
  lemma {:induction false} DepartAllLeaves<C>(chans: map<string, seq<C>>, c: C, names: seq<string>, k: string)
    requires Populated(chans) && NoDup(names) && k in names
    ensures var r := DepartAll(chans, c, names);
            k in r ==> k in chans && c !in r[k] && (forall x | x in r[k] :: x in chans[k]) &&
                       (forall x | x in chans[k] && x != c :: x in r[k])
  {
    var n := |names| - 1;
    var prefix := names[..n];
    if names[n] == k {
      assert k !in prefix by {
        forall j | 0 <= j < n ensures prefix[j] != k {
          assert prefix[j] == names[j];
        }
      }
      DepartAllOther(chans, c, prefix, k);
    } else {
      assert k in prefix by {
        var j :| 0 <= j < |names| && names[j] == k;
        assert prefix[j] == k;
      }
      assert NoDup(prefix) by {
        forall i, j | 0 <= i < j < n ensures prefix[i] != prefix[j] {
          assert prefix[i] == names[i] && prefix[j] == names[j];
        }
      }
      DepartAllLeaves(chans, c, prefix, k);
    }
  }

  /** The other members of the named channels: everyone who shares one of
      them with the client. */
  function CoMembers<C(==)>(chans: map<string, seq<C>>, c: C, names: seq<string>): (r: set<C>)
    ensures c !in r
    ensures forall x | x in r :: exists k | k in names && k in chans :: x in chans[k]
  {
    if names == [] then {}
    else
      var k := names[|names| - 1];
      CoMembers(chans, c, names[..|names| - 1]) +
      (if k in chans then set x | x in chans[k] && x != c else {})
  }

  /** Everyone who shares a named channel with the client is a co-member. */
  lemma {:induction false} CoMembersComplete<C>(chans: map<string, seq<C>>, c: C, names: seq<string>, k: string, x: C)
    requires k in names && k in chans && x in chans[k] && x != c
    ensures x in CoMembers(chans, c, names)
  {
    var n := |names| - 1;
    if names[n] != k {
      var j :| 0 <= j < |names| && names[j] == k;
      assert names[..n][j] == k;
      CoMembersComplete(chans, c, names[..n], k, x);
    }
  }

  /** The two sides of membership agree: each client's own channel list
      (`rooms`) names exactly the channels whose member lists hold it, and
      names each once. */
  predicate Symmetric<C(==)>(chans: map<string, seq<C>>, rooms: map<C, seq<string>>)
  {
    (forall k, x | k in chans && x in chans[k] :: x in rooms && k in rooms[x]) &&
    (forall x | x in rooms :: NoDup(rooms[x])) &&
    (forall x, k | x in rooms && k in rooms[x] :: k in chans && x in chans[k])
  }

  /** Leaving a channel on both sides keeps the sides in agreement. */
  lemma DepartSymmetric<C>(chans: map<string, seq<C>>, rooms: map<C, seq<string>>, c: C, lc: string)
    requires Populated(chans) && Symmetric(chans, rooms) && c in rooms
    ensures Symmetric(Depart(chans, c, lc), rooms[c := Remove(rooms[c], lc)])
  {
    var r := Depart(chans, c, lc);
    var rooms' := rooms[c := Remove(rooms[c], lc)];
    forall k, x | k in r && x in r[k] ensures x in rooms' && k in rooms'[x] {
      assert x in chans[k];
    }
    forall x, k | x in rooms' && k in rooms'[x] ensures k in r && x in r[k] {
      if x == c {
        assert k in rooms[c] && k != lc;
      }
    }
  }

  /** A new client, in no channel yet, keeps the sides in agreement. */
  lemma NewcomerSymmetric<C>(chans: map<string, seq<C>>, rooms: map<C, seq<string>>, c: C)
    requires Symmetric(chans, rooms) && c !in rooms
    ensures Symmetric(chans, rooms[c := []])
  {
  }

  /** The whole channel registry invariant, over the member lists, the
      topics and every session's own channel list: channels are populated,
      named in lower case, agree with the sessions' lists, and only
      existing channels have topics. */
  predicate Consistent<C(==)>(chans: map<string, seq<C>>, topics: map<string, string>, rooms: map<C, seq<string>>)
  {
    Populated(chans) &&
    (forall k | k in chans :: Lower(k) == k) &&
    Symmetric(chans, rooms) &&
    topics.Keys <= chans.Keys
  }

  /** `leave_channel` keeps the registry consistent. */
  lemma LeaveConsistent<C>(chans: map<string, seq<C>>, topics: map<string, string>, rooms: map<C, seq<string>>,
                           c: C, lc: string)
    requires Consistent(chans, topics, rooms) && c in rooms
    ensures var r := Depart(chans, c, lc);
            Consistent(r, Restrict(topics, r.Keys), rooms[c := Remove(rooms[c], lc)])
  {
    DepartSymmetric(chans, rooms, c, lc);
  }

  /** A channel on a client's own list exists and lists the client. */
  lemma Roomed<C>(chans: map<string, seq<C>>, topics: map<string, string>, rooms: map<C, seq<string>>,
                  c: C, lc: string)
    requires Consistent(chans, topics, rooms) && c in rooms && lc in rooms[c]
    ensures lc in chans && c in chans[lc]
  {
  }

  /** The member list `channel_get_members` reports: empty for a channel
      that does not exist. */
  function MembersOf<C>(chans: map<string, seq<C>>, lc: string): seq<C>
  {
    if lc in chans then chans[lc] else []
  }

  /** Leaving one more channel from a list without repeats: the registry
      takes one more `Depart` step, and the members left behind in that
      channel are exactly its other members before the cascade began. */
  lemma {:induction false} LeaveStep<C>(chans: map<string, seq<C>>, c: C, names: seq<string>, i: nat, visited: seq<string>)
    requires Populated(chans) && NoDup(names) && i < |names| && visited == names[..i]
    ensures var next := Depart(DepartAll(chans, c, visited), c, names[i]);
            names[..i + 1] == visited + [names[i]] &&
            DepartAll(chans, c, visited + [names[i]]) == next &&
            CoMembers(chans, c, visited + [names[i]]) ==
              CoMembers(chans, c, visited) + (set x | x in MembersOf(next, names[i]))
  {
    var k := names[i];
    var cur := DepartAll(chans, c, visited);
    var next := Depart(cur, c, k);
    TakeNext(names, i);
    assert (visited + [k])[..i] == visited;
    assert k !in visited by {
      forall j | 0 <= j < i ensures visited[j] != k {
        assert visited[j] == names[j];
      }
    }
    DepartAllOther(chans, c, visited, k);
    var left := set x | x in MembersOf(next, k);
    var others := if k in chans then set x | x in chans[k] && x != c else {};
    assert left == others by {
      if k in next {
        assert k in chans && cur[k] == chans[k];
      } else if k in chans {
        assert cur[k] == chans[k];
        assert chans[k] == [c] by {
          assert c in chans[k] && |chans[k]| == 1;
        }
      }
    }
  }

  /** The channel loop that skips every other channel still leaves the
      registry consistent after each pass: the channels it has left are
      gone from both sides, the ones still ahead or skipped remain. */
  lemma {:induction false} SkipConsistent<C>(chans: map<string, seq<C>>, topics: map<string, string>,
                                            rooms: map<C, seq<string>>, c: C, orig: seq<string>, i: nat)
    requires Consistent(chans, topics, rooms) && c in rooms && rooms[c] == orig && 2 * i <= |orig| + 1
    ensures var r := DepartAll(chans, c, Evens(orig)[..i]);
            Consistent(r, Restrict(topics, r.Keys), rooms[c := Unvisited(orig, i)])
  {
    if i == 0 {
      assert Evens(orig)[..0] == [];
      assert orig[..0] == [] && orig[0..] == orig;
      assert rooms[c := orig] == rooms;
      assert Restrict(topics, chans.Keys) == topics;
    } else {
      SkipConsistent(chans, topics, rooms, c, orig, i - 1);
      SkipConsistentStep(chans, topics, rooms, c, orig, i - 1);
    }
  }

  /** After the whole skipping loop: the channels at even positions are
      left, and the client's own list is the channels at odd positions. */
  lemma SkipConsistentEnd<C>(chans: map<string, seq<C>>, topics: map<string, string>,
                             rooms: map<C, seq<string>>, c: C, orig: seq<string>)
    requires Consistent(chans, topics, rooms) && c in rooms && rooms[c] == orig
    ensures var r := DepartAll(chans, c, Evens(orig));
            Consistent(r, Restrict(topics, r.Keys), rooms[c := Odds(orig)])
  {
    var i := (|orig| + 1) / 2;
    SkipEnd(orig, i);
    assert Evens(orig)[..i] == Evens(orig);
    SkipConsistent(chans, topics, rooms, c, orig, i);
  }

  lemma SkipConsistentStep<C>(chans: map<string, seq<C>>, topics: map<string, string>,
                              rooms: map<C, seq<string>>, c: C, orig: seq<string>, i: nat)
    requires NoDup(orig) && 2 * i < |orig|
    requires var r := DepartAll(chans, c, Evens(orig)[..i]);
             Consistent(r, Restrict(topics, r.Keys), rooms[c := Unvisited(orig, i)])
    ensures var r := DepartAll(chans, c, Evens(orig)[..i + 1]);
            Consistent(r, Restrict(topics, r.Keys), rooms[c := Unvisited(orig, i + 1)])
  {
    var names := Evens(orig);
    UnvisitedLength(orig, i);
    SkipStep(orig, i);
    TakeNext(names, i);
    LeaveOneConsistent(chans, topics, rooms, c, names[..i], Unvisited(orig, i), names[i]);
  }

  /** The corrected loop, which walks a copy of the client's list, leaves
      the registry consistent after each pass: the channels before
      position `i` are left on both sides, the rest are untouched. */
  lemma {:induction false} PrefixConsistent<C>(chans: map<string, seq<C>>, topics: map<string, string>,
                                              rooms: map<C, seq<string>>, c: C, orig: seq<string>, i: nat)
    requires Consistent(chans, topics, rooms) && c in rooms && rooms[c] == orig && i <= |orig|
    ensures var r := DepartAll(chans, c, orig[..i]);
            Consistent(r, Restrict(topics, r.Keys), rooms[c := orig[i..]])
  {
    if i == 0 {
      assert orig[..0] == [] && orig[0..] == orig;
      assert rooms[c := orig] == rooms;
      assert Restrict(topics, chans.Keys) == topics;
    } else {
      PrefixConsistent(chans, topics, rooms, c, orig, i - 1);
      TakeNext(orig, i - 1);
      assert Remove(orig[i - 1..], orig[i - 1]) == orig[i..];
      LeaveOneConsistent(chans, topics, rooms, c, orig[..i - 1], orig[i - 1..], orig[i - 1]);
    }
  }

  /** Leaving one more channel keeps the registry consistent with the
      client's shortened list. */
  lemma LeaveOneConsistent<C>(chans: map<string, seq<C>>, topics: map<string, string>, rooms: map<C, seq<string>>,
                              c: C, visited: seq<string>, rest: seq<string>, lc: string)
    requires var r := DepartAll(chans, c, visited);
             Consistent(r, Restrict(topics, r.Keys), rooms[c := rest])
    ensures var r := DepartAll(chans, c, visited + [lc]);
            Consistent(r, Restrict(topics, r.Keys), rooms[c := Remove(rest, lc)])
  {
    var before := DepartAll(chans, c, visited);
    assert (visited + [lc])[..|visited|] == visited;
    LeaveConsistent(before, Restrict(topics, before.Keys), rooms[c := rest], c, lc);
    RestrictTwice(topics, before.Keys, DepartAll(chans, c, visited + [lc]).Keys);
    Overwrite(rooms, c, rest, Remove(rest, lc));
  }

  /** A second update of the same key replaces the first. */
  lemma Overwrite<K, V>(m: map<K, V>, k: K, a: V, b: V)
    ensures m[k := a][k := b] == m[k := b]
  {
    assert m[k := a][k := b].Keys == m[k := b].Keys;
  }

  /** Joining a channel the client is not in yet, on both sides, keeps the
      registry consistent; the channel is created when missing. */
  lemma JoinConsistent<C>(chans: map<string, seq<C>>, topics: map<string, string>, rooms: map<C, seq<string>>,
                          c: C, lc: string)
    requires Consistent(chans, topics, rooms) && c in rooms && lc !in rooms[c] && Lower(lc) == lc
    ensures Consistent(chans[lc := MembersOf(chans, lc) + [c]], topics, rooms[c := rooms[c] + [lc]])
  {
    var list := MembersOf(chans, lc);
    assert c !in list;
    var r := chans[lc := list + [c]];
    var q := rooms[c := rooms[c] + [lc]];
    AppendFresh(rooms[c], lc);
    AppendFresh(list, c);
    forall k, x | k in r && x in r[k] ensures x in q && k in q[x] {
      if k == lc && x == c {
      } else if k == lc {
        assert x in list;
      }
    }
    forall x, k | x in q && k in q[x] ensures k in r && x in r[k] {
      if x == c && k == lc {
      } else if x == c {
        assert k in rooms[c];
      }
    }
  }

  /** Setting the topic of an existing channel keeps the registry
      consistent. */
  lemma TopicConsistent<C>(chans: map<string, seq<C>>, topics: map<string, string>, rooms: map<C, seq<string>>,
                           lc: string, text: string)
    requires Consistent(chans, topics, rooms) && lc in chans
    ensures Consistent(chans, topics[lc := text], rooms)
  {
  }

  /** Everyone in one of the named channels that exist (`neighbors` in the
      NICK handler), collected channel by channel. */
  function Sharers<C>(chans: map<string, seq<C>>, names: seq<string>): set<C>
  {
    if names == [] then {}
    else
      var k := names[|names| - 1];
      Sharers(chans, names[..|names| - 1]) + (if k in chans then set x | x in chans[k] else {})
  }

  /** A client is collected exactly when it is in one of the named
      channels. */
  lemma {:induction false} SharersIff<C>(chans: map<string, seq<C>>, names: seq<string>, x: C)
    ensures x in Sharers(chans, names) <==> exists k | k in names :: k in chans && x in chans[k]
  {
    if names != [] {
      var n := |names| - 1;
      SharersIff(chans, names[..n], x);
      if x in Sharers(chans, names) {
        if x in Sharers(chans, names[..n]) {
          var k :| k in names[..n] && k in chans && x in chans[k];
          assert k in names;
        } else {
          assert names[n] in names;
        }
      }
      if exists k | k in names :: k in chans && x in chans[k] {
        var k :| k in names && k in chans && x in chans[k];
        var j :| 0 <= j < |names| && names[j] == k;
        if j < n {
          assert names[..n][j] == k;
        }
      }
    }
  }
}
