/** Redis sorted sets: entries by ascending score, ties by member; one entry per member. */
module SortedSets {

  datatype Entry = Entry(score: int, member: string)
  type ZSet = seq<Entry>

  predicate LexLess(a: string, b: string) {
    if b == [] then false
    else if a == [] then true
    else if a[0] != b[0] then a[0] < b[0]
    else LexLess(a[1..], b[1..])
  }

  predicate Precedes(x: Entry, y: Entry) {
    x.score < y.score || (x.score == y.score && LexLess(x.member, y.member))
  }

  ghost predicate Ordered(z: ZSet) {
    forall i, j :: 0 <= i < j < |z| ==> Precedes(z[i], z[j])
  }

  ghost predicate Distinct(z: ZSet) {
    forall i, j :: 0 <= i < j < |z| ==> z[i].member != z[j].member
  }

  ghost predicate IsZSet(z: ZSet) {
    Ordered(z) && Distinct(z)
  }

  /** ZREM of several members. */
  function ZRem(z: ZSet, ms: set<string>): ZSet {
    if z == [] then [] else (if z[0].member in ms then [] else [z[0]]) + ZRem(z[1..], ms)
  }

  /** ZREMRANGEBYSCORE key -inf max. */
  function ZRemUpTo(z: ZSet, max: int): ZSet {
    if z == [] then [] else (if z[0].score <= max then [] else [z[0]]) + ZRemUpTo(z[1..], max)
  }

  function InsertEntry(z: ZSet, e: Entry): ZSet {
    if z == [] || Precedes(e, z[0]) then [e] + z else [z[0]] + InsertEntry(z[1..], e)
  }

  /** ZADD: sets the member's score. */
  function ZAdd(z: ZSet, score: int, member: string): ZSet {
    InsertEntry(ZRem(z, {member}), Entry(score, member))
  }

  function Members(z: ZSet): set<string> {
    set e | e in z :: e.member
  }

  // ----- the order

  lemma {:induction false} LexTotal(a: string, b: string)
    ensures a == b || LexLess(a, b) || LexLess(b, a)
  {
    if a == [] || b == [] || a[0] != b[0] {
    } else {
      LexTotal(a[1..], b[1..]);
      assert a == [a[0]] + a[1..] && b == [b[0]] + b[1..];
    }
  }

  lemma {:induction false} LexTransitive(a: string, b: string, c: string)
    requires LexLess(a, b) && LexLess(b, c)
    ensures LexLess(a, c)
  {
    if a == [] || a[0] != b[0] || b[0] != c[0] {
    } else {
      LexTransitive(a[1..], b[1..], c[1..]);
    }
  }

  lemma {:induction false} LexIrreflexive(a: string)
    ensures !LexLess(a, a)
  {
    if a == [] {
    } else {
      LexIrreflexive(a[1..]);
    }
  }

  lemma PrecedesTransitive(x: Entry, y: Entry, z: Entry)
    requires Precedes(x, y) && Precedes(y, z)
    ensures Precedes(x, z)
  {
    if x.score == y.score == z.score {
      LexTransitive(x.member, y.member, z.member);
    }
  }

  lemma PrecedesTotal(x: Entry, y: Entry)
    requires x.member != y.member
    ensures Precedes(x, y) || Precedes(y, x)
  {
    LexTotal(x.member, y.member);
  }

  /** The order of members is that of a dictionary: the first difference decides, and a prefix comes first. */
  lemma {:induction false} LexLessIff(a: string, b: string)
    ensures LexLess(a, b) <==>
            exists i :: 0 <= i <= |a| && i < |b| && a[..i] == b[..i] && (i == |a| || a[i] < b[i])
  {
    if a == [] || b == [] {
      if b != [] {
        assert a[..0] == b[..0];
      }
    } else {
      LexLessIff(a[1..], b[1..]);
      forall i | 0 < i <= |a| && i < |b| && a[..i] == b[..i]
        ensures a[0] == b[0]
      {
        assert a[..i][0] == a[0] && b[..i][0] == b[0];
      }
      if a[0] != b[0] {
        assert a[..0] == b[..0];
      } else {
        if i :| 0 <= i <= |a| && i < |b| && a[..i] == b[..i] && (i == |a| || a[i] < b[i]) {
          assert i > 0 && a[1..][..i - 1] == a[..i][1..] == b[..i][1..] == b[1..][..i - 1];
        }
        if i :| 0 <= i <= |a[1..]| && i < |b[1..]| && a[1..][..i] == b[1..][..i]
                && (i == |a[1..]| || a[1..][i] < b[1..][i]) {
          assert a[..i + 1] == [a[0]] + a[1..][..i] && b[..i + 1] == [b[0]] + b[1..][..i];
        }
      }
    }
  }

  // ----- removals

  lemma {:induction false} ZRemMembers(z: ZSet, ms: set<string>)
    ensures forall e :: e in ZRem(z, ms) <==> e in z && e.member !in ms
  {
    if z == [] {
    } else {
      ZRemMembers(z[1..], ms);
      assert z == [z[0]] + z[1..];
    }
  }

  lemma {:induction false} ZRemKeeps(z: ZSet, ms: set<string>)
    requires IsZSet(z)
    ensures IsZSet(ZRem(z, ms))
  {
    if z == [] {
    } else {
      TailIsZSet(z);
      hide IsZSet;
      ZRemKeeps(z[1..], ms);
      ZRemMembers(z[1..], ms);
      KeepHead(z, ZRem(z[1..], ms));
      assert [] + ZRem(z[1..], ms) == ZRem(z[1..], ms);
    }
  }

  lemma ZRemFacts(z: ZSet, ms: set<string>)
    ensures forall e :: e in ZRem(z, ms) <==> e in z && e.member !in ms
    ensures IsZSet(z) ==> IsZSet(ZRem(z, ms))
  {
    hide IsZSet;
    ZRemMembers(z, ms);
    if IsZSet(z) {
      ZRemKeeps(z, ms);
    }
  }

  lemma {:induction false} ZRemUpToMembers(z: ZSet, max: int)
    ensures forall e :: e in ZRemUpTo(z, max) <==> e in z && e.score > max
  {
    if z == [] {
    } else {
      ZRemUpToMembers(z[1..], max);
      assert z == [z[0]] + z[1..];
    }
  }

  lemma {:induction false} ZRemUpToKeeps(z: ZSet, max: int)
    requires IsZSet(z)
    ensures IsZSet(ZRemUpTo(z, max))
  {
    if z == [] {
    } else {
      TailIsZSet(z);
      hide IsZSet;
      ZRemUpToKeeps(z[1..], max);
      ZRemUpToMembers(z[1..], max);
      KeepHead(z, ZRemUpTo(z[1..], max));
      assert [] + ZRemUpTo(z[1..], max) == ZRemUpTo(z[1..], max);
    }
  }

  lemma ZRemUpToFacts(z: ZSet, max: int)
    ensures forall e :: e in ZRemUpTo(z, max) <==> e in z && e.score > max
    ensures IsZSet(z) ==> IsZSet(ZRemUpTo(z, max))
  {
    hide IsZSet;
    ZRemUpToMembers(z, max);
    if IsZSet(z) {
      ZRemUpToKeeps(z, max);
    }
  }

  /** Removing exactly the members of the first k entries drops these entries. */
  lemma {:induction false} ZRemPrefix(z: ZSet, k: nat, ms: set<string>)
    requires k <= |z| && forall i :: 0 <= i < |z| ==> (z[i].member in ms <==> i < k)
    ensures ZRem(z, ms) == z[k..]
  {
    if z == [] {
    } else if k == 0 {
      ZRemPrefix(z[1..], 0, ms);
      assert z == [z[0]] + z[1..];
    } else {
      ZRemPrefix(z[1..], k - 1, ms);
      assert z[1..][k - 1..] == z[k..];
      assert [] + ZRem(z[1..], ms) == ZRem(z[1..], ms);
    }
  }

  lemma TailIsZSet(z: ZSet)
    requires IsZSet(z) && z != []
    ensures IsZSet(z[1..])
  {
  }

  /** Dropping entries behind the head keeps a sorted set one. */
  lemma KeepHead(z: ZSet, rest: ZSet)
    requires z != [] && forall e :: e in rest ==> e in z[1..]
    ensures IsZSet(z) && IsZSet(rest) ==> IsZSet([z[0]] + rest)
  {
    if IsZSet(z) && IsZSet(rest) {
      var r := [z[0]] + rest;
      forall j | 0 <= j < |rest|
        ensures Precedes(z[0], rest[j]) && z[0].member != rest[j].member
      {
        assert rest[j] in z[1..];
        var k :| 0 <= k < |z[1..]| && z[1..][k] == rest[j];
        assert z[k + 1] == rest[j];
      }
      forall i, j | 0 <= i < j < |r|
        ensures Precedes(r[i], r[j]) && r[i].member != r[j].member
      {
        assert r[j] == rest[j - 1];
        if i > 0 {
          assert r[i] == rest[i - 1];
        }
      }
    }
  }

  // ----- insertion

  lemma {:induction false} InsertMembership(z: ZSet, e: Entry)
    ensures forall x :: x in InsertEntry(z, e) <==> x == e || x in z
  {
    if z == [] {
    } else {
      assert z == [z[0]] + z[1..];
      if !Precedes(e, z[0]) {
        InsertMembership(z[1..], e);
      }
    }
  }

  lemma {:induction false} InsertKeeps(z: ZSet, e: Entry)
    requires IsZSet(z) && e.member !in Members(z)
    ensures IsZSet(InsertEntry(z, e))
  {
    if z == [] {
    } else if Precedes(e, z[0]) {
      forall j | 0 <= j < |z|
        ensures Precedes(e, z[j]) && e.member != z[j].member
      {
        assert z[j] in z;
        if j > 0 {
          PrecedesTransitive(e, z[0], z[j]);
        }
      }
    } else {
      assert z[0] in z;
      PrecedesTotal(e, z[0]);
      InsertKeeps(z[1..], e);
      var r := InsertEntry(z[1..], e);
      InsertMembership(z[1..], e);
      forall j | 0 <= j < |r|
        ensures Precedes(z[0], r[j]) && z[0].member != r[j].member
      {
        assert r[j] in r;
        if r[j] != e {
          var k :| 0 <= k < |z[1..]| && z[1..][k] == r[j];
          assert z[k + 1] == r[j];
        }
      }
    }
  }

  lemma ZAddFacts(z: ZSet, score: int, member: string)
    requires IsZSet(z)
    ensures IsZSet(ZAdd(z, score, member))
    ensures forall e :: e in ZAdd(z, score, member) <==> e == Entry(score, member) || (e in z && e.member != member)
  {
    ZRemFacts(z, {member});
    InsertMembership(ZRem(z, {member}), Entry(score, member));
    InsertKeeps(ZRem(z, {member}), Entry(score, member));
  }

  // ----- a sorted set is determined by its entries

  lemma {:induction false} SameEntries(y: ZSet, z: ZSet)
    requires IsZSet(y) && IsZSet(z) && forall e :: e in y <==> e in z
    ensures y == z
  {
    SomeEntry(y);
    SomeEntry(z);
    if y == [] {
    } else {
      assert y[0] in z;
      assert z[0] in y;
      HeadIsLeast(y, z[0]);
      HeadIsLeast(z, y[0]);
      if y[0] != z[0] {
        PrecedesTransitive(y[0], z[0], y[0]);
        LexIrreflexive(y[0].member);
        assert false;
      }
      forall e
        ensures e in y[1..] <==> e in z[1..]
      {
        TailEntries(y, e);
        TailEntries(z, e);
      }
      SameEntries(y[1..], z[1..]);
      assert y == [y[0]] + y[1..] && z == [z[0]] + z[1..];
    }
  }

  lemma SomeEntry(z: ZSet)
    ensures z == [] || exists e :: e in z
  {
    if z != [] {
      assert z[0] in z;
    }
  }

  lemma HeadIsLeast(z: ZSet, e: Entry)
    requires IsZSet(z) && e in z
    ensures e == z[0] || Precedes(z[0], e)
  {
  }

  lemma TailEntries(z: ZSet, e: Entry)
    requires IsZSet(z) && z != []
    ensures e in z[1..] <==> e in z && e != z[0]
  {
    assert z == [z[0]] + z[1..];
    if e in z[1..] {
      var k :| 0 <= k < |z[1..]| && z[1..][k] == e;
      assert z[k + 1] == e;
    }
  }

  lemma {:induction false} CardIsMembers(z: ZSet)
    requires Distinct(z)
    ensures |z| == |Members(z)|
  {
    if z == [] {
      assert Members(z) == {};
    } else {
      CardIsMembers(z[1..]);
      assert z == [z[0]] + z[1..];
      assert Members(z) == {z[0].member} + Members(z[1..]) by {
        forall m | m in Members(z) ensures m in {z[0].member} + Members(z[1..]) {
          var e :| e in z && e.member == m;
          assert e == z[0] || e in z[1..];
        }
      }
      assert z[0].member !in Members(z[1..]);
    }
  }
}
