/** Python list operations the registry relies on: `list.remove` (drop the
    first occurrence) and the positions a `for` loop visits when the loop
    body removes the element it is looking at. */
module Lists {

  predicate NoDup<T(==)>(s: seq<T>)
  {
    forall i, j | 0 <= i < j < |s| :: s[i] != s[j]
  }

  /** `list.remove(x)` when `x` may be absent (the callers check `in`
      first, so an absent element leaves the list as it is). */
  function Remove<T(==)>(s: seq<T>, x: T): (r: seq<T>)
    ensures x !in s ==> r == s
    ensures x in s ==> |r| == |s| - 1
    ensures forall y | y in r :: y in s
    ensures forall y | y in s && y != x :: y in r
    ensures NoDup(s) ==> NoDup(r) && x !in r
  {
    if s == [] then []
    else if s[0] == x then
      assert s == [s[0]] + s[1..];
      s[1..]
    else
      var rest := Remove(s[1..], x);
      assert s == [s[0]] + s[1..];
      HeadNotInTail(s);
      [s[0]] + rest
  }

  /** `list.remove` takes away exactly one copy of the element, when there
      is one, and keeps every other element. */
  lemma {:induction false} RemoveMultiset<T>(s: seq<T>, x: T)
    ensures multiset(Remove(s, x)) == multiset(s) - multiset{x}
  {
    if s != [] {
      assert s == [s[0]] + s[1..];
      if s[0] != x {
        RemoveMultiset(s[1..], x);
        assert Remove(s, x) == [s[0]] + Remove(s[1..], x);
      }
    }
  }

  lemma HeadNotInTail<T>(s: seq<T>)
    requires s != []
    ensures NoDup(s) ==> s[0] !in s[1..] && NoDup(s[1..])
  {
    if NoDup(s) {
      forall j | 0 <= j < |s| - 1
        ensures s[1..][j] != s[0]
      {
        assert s[1..][j] == s[j + 1];
      }
    }
  }

  /** Removing a member and appending one keep a list duplicate-free in the
      way the registry needs. */
  lemma AppendFresh<T>(s: seq<T>, x: T)
    requires NoDup(s) && x !in s
    ensures NoDup(s + [x])
  {
  }

  /** The elements at positions 0, 2, 4, ... */
  function Evens<T>(s: seq<T>): (r: seq<T>)
    ensures |r| == (|s| + 1) / 2
    ensures forall j | 0 <= j < |r| :: r[j] == s[2 * j]
  {
    seq((|s| + 1) / 2, j requires 0 <= j < (|s| + 1) / 2 => s[2 * j])
  }

  /** The elements at positions 1, 3, 5, ... */
  function Odds<T>(s: seq<T>): (r: seq<T>)
    ensures |r| == |s| / 2
    ensures forall j | 0 <= j < |r| :: r[j] == s[2 * j + 1]
  {
    seq(|s| / 2, j requires 0 <= j < |s| / 2 => s[2 * j + 1])
  }

  /** Every element lands on exactly one side of the even/odd split. */
  lemma EvensOddsCover<T>(s: seq<T>, x: T)
    ensures x in s <==> x in Evens(s) || x in Odds(s)
  {
    if x in s {
      var i :| 0 <= i < |s| && s[i] == x;
      if i % 2 == 0 {
        assert Evens(s)[i / 2] == x;
      } else {
        assert Odds(s)[i / 2] == x;
      }
    }
  }

  /** `list.remove` keeps a head that differs from the element. */
  lemma RemoveCons<T>(h: T, t: seq<T>, x: T)
    requires h != x
    ensures Remove([h] + t, x) == [h] + Remove(t, x)
  {
    assert ([h] + t)[1..] == t;
  }

  lemma RemoveUnderHead<T>(a: seq<T>, x: T, b: seq<T>)
    requires a != [] && a[0] != x
    requires Remove(a[1..] + [x] + b, x) == a[1..] + b
    ensures Remove(a + [x] + b, x) == a + b
  {
    var t := a[1..] + [x] + b;
    assert a + [x] + b == [a[0]] + t;
    RemoveCons(a[0], t, x);
    assert a + b == [a[0]] + (a[1..] + b);
  }

  /** `list.remove` takes out the first occurrence, wherever it is. */
  lemma {:induction false} RemoveFirstOccurrence<T>(a: seq<T>, x: T, b: seq<T>)
    requires x !in a
    ensures Remove(a + [x] + b, x) == a + b
  {
    if a == [] {
      assert a + [x] + b == [x] + b;
    } else {
      RemoveFirstOccurrence(a[1..], x, b);
      RemoveUnderHead(a, x, b);
    }
  }

  /** The odd positions of a longer even-length prefix. */
  lemma OddsStep<T>(s: seq<T>, k: nat)
    requires 2 * k + 2 <= |s|
    ensures Odds(s[..2 * k + 2]) == Odds(s[..2 * k]) + [s[2 * k + 1]]
  {
  }

  /** The list a `for` loop over `s` sees after it has visited `i`
      elements, when each visit removes the element visited: the odd
      positions it skipped so far, then the part not yet reached. */
  function Unvisited<T>(s: seq<T>, i: nat): seq<T>
  {
    var m := if 2 * i <= |s| then 2 * i else |s|;
    Odds(s[..m]) + s[m..]
  }

  /** One more visit of that loop: it sees `s[2 * i]`, and removing it
      skips `s[2 * i + 1]`. */
  lemma SkipStep<T>(s: seq<T>, i: nat)
    requires NoDup(s) && 2 * i <= |s| + 1 && i < |Unvisited(s, i)|
    ensures 2 * i < |s| && i < |Evens(s)| && Evens(s)[i] == s[2 * i]
    ensures Unvisited(s, i)[i] == s[2 * i]
    ensures Remove(Unvisited(s, i), s[2 * i]) == Unvisited(s, i + 1)
  {
    var a := Odds(s[..2 * i]);
    assert Unvisited(s, i) == a + [s[2 * i]] + s[2 * i + 1..];
    assert s[2 * i] !in a by {
      forall j | 0 <= j < |a| ensures a[j] != s[2 * i] {
        assert a[j] == s[2 * j + 1];
      }
    }
    RemoveFirstOccurrence(a, s[2 * i], s[2 * i + 1..]);
    SkipStepTail(s, i);
  }

  lemma UnvisitedLength<T>(s: seq<T>, i: nat)
    requires 2 * i <= |s|
    ensures |Unvisited(s, i)| == |s| - i
  {
  }

  lemma SkipStepTail<T>(s: seq<T>, i: nat)
    requires 2 * i < |s|
    ensures Odds(s[..2 * i]) + s[2 * i + 1..] == Unvisited(s, i + 1)
  {
    if 2 * i + 2 <= |s| {
      OddsStep(s, i);
      assert s[2 * i + 1..] == [s[2 * i + 1]] + s[2 * i + 2..];
    } else {
      assert s[..|s|] == s;
    }
  }

  /** When that loop stops it has visited the even positions and left the
      odd ones in the list. */
  lemma SkipEnd<T>(s: seq<T>, i: nat)
    requires 2 * i <= |s| + 1 && i >= |Unvisited(s, i)|
    ensures Unvisited(s, i) == Odds(s) && i == |Evens(s)|
  {
    assert s[..|s|] == s;
  }

  /** The positions of a list without repeats hold different elements. */
  lemma EvensNoDup<T>(s: seq<T>)
    requires NoDup(s)
    ensures NoDup(Evens(s))
  {
  }

  /** The second element is at an odd position. */
  lemma SecondIsOdd<T>(s: seq<T>)
    requires |s| >= 2
    ensures s[1] in Odds(s)
  {
    assert Odds(s)[0] == s[1];
  }

  /** For a client in two channels the loop leaves only the first. */
  lemma TwoChannelsSkipOne()
    ensures Evens(["#a", "#b"]) == ["#a"] && Odds(["#a", "#b"]) == ["#b"]
  {
  }

  /** A prefix one longer is the prefix and the next element. */
  lemma TakeNext<T>(s: seq<T>, i: nat)
    requires i < |s|
    ensures s[..i + 1] == s[..i] + [s[i]]
  {
  }

  /** Whatever a prefix holds, the longer list holds too. */
  lemma PrefixMembers<T>(a: seq<T>, b: seq<T>)
    requires a <= b
    ensures forall x | x in a :: x in b
  {
    assert b[..|a|] == a;
  }
}
