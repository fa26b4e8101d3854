/** The order the first mix stage's input is rebuilt in:
    `sorted(ballots, key=voter_uuid, reverse=True)`. */
module VoterOrder {
  import opened Election

  /** Python's `<` on strings: lexicographic by code point, a proper prefix
      being smaller. */
  predicate Less(a: string, b: string)
    decreases |a|
  {
    if |a| == 0 then |b| > 0
    else if |b| == 0 then false
    else if a[0] != b[0] then a[0] < b[0]
    else Less(a[1..], b[1..])
  }

  lemma {:induction false} LessIrreflexive(a: string)
    ensures !Less(a, a)
    decreases |a|
  {
    if |a| > 0 {
      LessIrreflexive(a[1..]);
    }
  }

  lemma {:induction false} LessTransitive(a: string, b: string, c: string)
    requires Less(a, b) && Less(b, c)
    ensures Less(a, c)
    decreases |a|
  {
    if |a| > 0 && a[0] == b[0] && b[0] == c[0] {
      LessTransitive(a[1..], b[1..], c[1..]);
    }
  }

  /** Any two distinct strings are ordered one way or the other. */
  lemma {:induction false} LessTotal(a: string, b: string)
    ensures a == b || Less(a, b) || Less(b, a)
    decreases |a|
  {
    if |a| > 0 && |b| > 0 && a[0] == b[0] {
      LessTotal(a[1..], b[1..]);
      if a[1..] == b[1..] {
        assert a == [a[0]] + a[1..] && b == [b[0]] + b[1..];
      }
    }
  }

  lemma LessAsymmetric(a: string, b: string)
    ensures !(Less(a, b) && Less(b, a))
  {
    if Less(a, b) && Less(b, a) {
      LessTransitive(a, b, a);
      LessIrreflexive(a);
    }
  }

  /** "Not less" is transitive too, since the order is total. */
  lemma NotLessTransitive(a: string, b: string, c: string)
    requires !Less(a, b) && !Less(b, c)
    ensures !Less(a, c)
  {
    LessTotal(a, b);
    LessTotal(b, c);
    if Less(a, c) {
      LessTransitive(c, b, a);
      LessAsymmetric(a, c);
    }
  }

  /** Voter identifiers never increase along the sequence. */
  predicate Descending(s: seq<Ballot>)
  {
    forall k, l :: 0 <= k < l < |s| ==> !Less(s[k].voterUuid, s[l].voterUuid)
  }

  /** Insert x before the first ballot whose identifier does not exceed x's,
      which keeps x ahead of ballots with an equal identifier. */
  function Insert(x: Ballot, s: seq<Ballot>): (r: seq<Ballot>)
    requires Descending(s)
    ensures Descending(r)
    ensures multiset(r) == multiset(s) + multiset{x}
    decreases |s|
  {
    if |s| == 0 then [x]
    else if !Less(x.voterUuid, s[0].voterUuid) then
      assert forall l :: 0 < l < |s| ==> !Less(x.voterUuid, s[l].voterUuid) by {
        forall l | 0 < l < |s|
          ensures !Less(x.voterUuid, s[l].voterUuid)
        {
          NotLessTransitive(x.voterUuid, s[0].voterUuid, s[l].voterUuid);
        }
      }
      [x] + s
    else
      var rest := Insert(x, s[1..]);
      assert s == [s[0]] + s[1..];
      LessAsymmetric(x.voterUuid, s[0].voterUuid);
      assert forall l :: 0 <= l < |rest| ==> !Less(s[0].voterUuid, rest[l].voterUuid) by {
        forall l | 0 <= l < |rest|
          ensures !Less(s[0].voterUuid, rest[l].voterUuid)
        {
          assert rest[l] in multiset(rest);
        }
      }
      [s[0]] + rest
  }

  /** The ballots sorted by voter identifier, largest first: a descending
      permutation of them. Ballots with equal identifiers are not ordered
      further here; with distinct identifiers the descending permutation is
      unique (ListingOrderIrrelevant), so it is the list Python's sort
      gives. */
  function SortByVoterDesc(bs: seq<Ballot>): (r: seq<Ballot>)
    ensures Descending(r)
    ensures multiset(r) == multiset(bs)
    ensures |r| == |bs|
    decreases |bs|
  {
    if |bs| == 0 then []
    else
      assert bs == [bs[0]] + bs[1..];
      Insert(bs[0], SortByVoterDesc(bs[1..]))
  }

  /** Ballots that share a voter identifier are the same ballot. */
  predicate UniqueVoters(bs: seq<Ballot>)
  {
    forall x, y :: x in bs && y in bs && x.voterUuid == y.voterUuid ==> x == y
  }

  /** Two descending arrangements of the same ballots start with the same
      ballot when voter identifiers are unique. */
  lemma SameFirstBallot(a: seq<Ballot>, b: seq<Ballot>)
    requires |a| > 0 && multiset(a) == multiset(b)
    requires UniqueVoters(a)
    requires Descending(a) && Descending(b)
    ensures |b| > 0 && a[0] == b[0]
  {
    assert a[0] in multiset(b);
    assert |b| > 0;
    assert b[0] in multiset(a);
    var k :| 0 <= k < |b| && b[k] == a[0];
    var m :| 0 <= m < |a| && a[m] == b[0];
    var u, v := a[0].voterUuid, b[0].voterUuid;
    LessIrreflexive(u);
    LessIrreflexive(v);
    assert !Less(u, v) by {
      if m > 0 {
        assert !Less(a[0].voterUuid, a[m].voterUuid);
      }
    }
    assert !Less(v, u) by {
      if k > 0 {
        assert !Less(b[0].voterUuid, b[k].voterUuid);
      }
    }
    LessTotal(u, v);
    assert a[0] in a && b[0] in a;
  }

  lemma DropFirst(a: seq<Ballot>)
    requires |a| > 0
    ensures multiset(a[1..]) == multiset(a) - multiset{a[0]}
    ensures Descending(a) ==> Descending(a[1..])
    ensures UniqueVoters(a) ==> UniqueVoters(a[1..])
  {
    assert a == [a[0]] + a[1..];
    assert forall x :: x in a[1..] ==> x in a;
  }

  /** With unique voter identifiers there is only one descending
      arrangement of a collection of ballots. */
  lemma {:induction false} DescendingArrangementUnique(a: seq<Ballot>, b: seq<Ballot>)
    requires multiset(a) == multiset(b)
    requires UniqueVoters(a)
    requires Descending(a) && Descending(b)
    ensures a == b
    decreases |a|
  {
    if |a| == 0 {
      assert |b| == |multiset(b)| == 0;
    } else {
      SameFirstBallot(a, b);
      DropFirst(a);
      DropFirst(b);
      DescendingArrangementUnique(a[1..], b[1..]);
    }
  }

  /** The rebuilt input does not depend on the order in which the server
      lists the ballots, provided voter identifiers are unique. */
  lemma ListingOrderIrrelevant(bs1: seq<Ballot>, bs2: seq<Ballot>)
    requires multiset(bs1) == multiset(bs2)
    requires UniqueVoters(bs1)
    ensures SortByVoterDesc(bs1) == SortByVoterDesc(bs2)
  {
    var r1, r2 := SortByVoterDesc(bs1), SortByVoterDesc(bs2);
    assert UniqueVoters(r1) by {
      forall x | x in r1
        ensures x in bs1
      {
        assert x in multiset(r1);
      }
    }
    DescendingArrangementUnique(r1, r2);
  }
}
