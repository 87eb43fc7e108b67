/** The array helpers of the community-detection program (comp10002/a2/program.c): the
    membership test, the friend list of a user read off the friendship matrix, the
    intersection and union counts of two friend lists, and the strength of connection
    between two users as the ratio of those two counts. */
module Community {

  /** The values of a sequence as a set. */
  ghost function Elems(xs: seq<int>): set<int>
  {
    set x | x in xs
  }

  /** No value occurs twice. */
  ghost predicate Distinct(xs: seq<int>)
  {
    forall i, j :: 0 <= i < j < |xs| ==> xs[i] != xs[j]
  }

  /** Each value is smaller than the next. */
  ghost predicate StrictlyIncreasing(xs: seq<int>)
  {
    forall i, j :: 0 <= i < j < |xs| ==> xs[i] < xs[j]
  }

  /** The number of positions of `xs` whose value occurs in `ys`. */
  function CountIn(xs: seq<int>, ys: seq<int>): (r: nat)
    ensures r <= |xs|
  {
    if |xs| == 0 then 0
    else CountIn(xs[..|xs| - 1], ys) + (if xs[|xs| - 1] in ys then 1 else 0)
  }

  /** The number of positions of `xs` whose value does not occur in `ys`. */
  function CountNotIn(xs: seq<int>, ys: seq<int>): (r: nat)
    ensures r <= |xs|
  {
    if |xs| == 0 then 0
    else CountNotIn(xs[..|xs| - 1], ys) + (if xs[|xs| - 1] in ys then 0 else 1)
  }

  // ---------------------------------------------------------------- array_contains

  /** array_contains: 1 when one of the first `count` cells holds `value`, 0 otherwise. */
  method ArrayContains(arr: array<int>, count: int, value: int) returns (r: int)
    requires 0 <= count <= arr.Length
    ensures r == 0 || r == 1
    ensures r == 1 <==> value in arr[..count]
  {
    for i := 0 to count
      invariant value !in arr[..i]
    {
      if arr[i] == value {
        return 1;
      }
      assert arr[..i + 1] == arr[..i] + [arr[i]];
    }
    return 0;
  }

  // ---------------------------------------------------------------- get_friends

  /** The columns of row `id` of the friendship matrix, among the first `n`, that hold a
      nonzero entry, in increasing order. */
  ghost function FriendsOf(mtx: array2<int>, id: int, n: int): (r: seq<int>)
    requires 0 <= id < mtx.Length0 && 0 <= n <= mtx.Length1
    reads mtx
    ensures forall k :: 0 <= k < |r| ==> 0 <= r[k] < n
  {
    if n == 0 then []
    else FriendsOf(mtx, id, n - 1) + (if mtx[id, n - 1] != 0 then [n - 1] else [])
  }

  /** A column is in the friend list exactly when it is one of the first `n` and its entry
      is nonzero; the list is strictly increasing and no longer than `n`. */
  lemma {:induction false} FriendsOfMembers(mtx: array2<int>, id: int, n: int)
    requires 0 <= id < mtx.Length0 && 0 <= n <= mtx.Length1
    ensures forall j :: j in FriendsOf(mtx, id, n) <==> 0 <= j < n && mtx[id, j] != 0
    ensures StrictlyIncreasing(FriendsOf(mtx, id, n))
    ensures |FriendsOf(mtx, id, n)| <= n
  {
    if n > 0 {
      FriendsOfMembers(mtx, id, n - 1);
      var prev := FriendsOf(mtx, id, n - 1);
      var f := FriendsOf(mtx, id, n);
      if mtx[id, n - 1] != 0 {
        assert f == prev + [n - 1];
        forall i, j | 0 <= i < j < |f| ensures f[i] < f[j] {
          if j == |prev| {
            assert f[i] == prev[i];
            assert prev[i] in prev;
          } else {
            assert f[i] == prev[i] && f[j] == prev[j];
          }
        }
      } else {
        assert f == prev;
      }
    }
  }

  /** get_friends: writes the friend list of user `id` over the first `userCount` columns
      into `ret` and returns its length; the cells of `ret` after it are left as they were. */
  method GetFriends(id: int, userCount: int, mtx: array2<int>, ret: array<int>) returns (count: int)
    requires 0 <= id < mtx.Length0 && 0 <= userCount <= mtx.Length1 && userCount <= ret.Length
    modifies ret
    ensures 0 <= count <= userCount
    ensures ret[..count] == FriendsOf(mtx, id, userCount)
    ensures ret[count..] == old(ret[count..])
  {
    count := 0;
    for i := 0 to userCount
      invariant 0 <= count <= i
      invariant ret[..count] == FriendsOf(mtx, id, i)
      invariant ret[count..] == old(ret[count..])
    {
      var value := mtx[id, i];
      if value != 0 {
        ret[count] := i;
        assert ret[..count + 1] == ret[..count] + [i];
        count := count + 1;
      }
    }
  }

  // ---------------------------------------------------------------- sum_intersection, sum_union

  /** sum_intersection: how many of the first `count1` cells of `arr1` hold a value found
      among the first `count2` cells of `arr2`. */
  method SumIntersection(arr1: array<int>, count1: int, arr2: array<int>, count2: int) returns (n: int)
    requires 0 <= count1 <= arr1.Length && 0 <= count2 <= arr2.Length
    ensures n == CountIn(arr1[..count1], arr2[..count2])
  {
    n := 0;
    for i := 0 to count1
      invariant n == CountIn(arr1[..i], arr2[..count2])
    {
      assert arr1[..i + 1][..i] == arr1[..i];
      var found := ArrayContains(arr2, count2, arr1[i]);
      if found != 0 {
        n := n + 1;
      }
    }
  }

  /** sum_union: `count1` plus how many of the first `count2` cells of `arr2` hold a value
      not found among the first `count1` cells of `arr1`. */
  method SumUnion(arr1: array<int>, count1: int, arr2: array<int>, count2: int) returns (n: int)
    requires 0 <= count1 <= arr1.Length && 0 <= count2 <= arr2.Length
    ensures n == count1 + CountNotIn(arr2[..count2], arr1[..count1])
  {
    n := count1;
    for i := 0 to count2
      invariant n == count1 + CountNotIn(arr2[..i], arr1[..count1])
    {
      assert arr2[..i + 1][..i] == arr2[..i];
      var found := ArrayContains(arr1, count1, arr2[i]);
      if found == 0 {
        n := n + 1;
      }
    }
  }

  // ---------------------------------------------------------------- counting lemmas

  /** Every position is counted by exactly one of the two counts. */
  lemma {:induction false} CountsSplit(xs: seq<int>, ys: seq<int>)
    ensures CountIn(xs, ys) + CountNotIn(xs, ys) == |xs|
  {
    if |xs| > 0 {
      CountsSplit(xs[..|xs| - 1], ys);
    }
  }

  /** Dropping the last value of a sequence without repeats leaves one without repeats, to
      which that value does not belong. */
  lemma DistinctInit(xs: seq<int>)
    requires Distinct(xs) && |xs| > 0
    ensures Distinct(xs[..|xs| - 1])
    ensures xs[|xs| - 1] !in Elems(xs[..|xs| - 1])
    ensures Elems(xs) == Elems(xs[..|xs| - 1]) + {xs[|xs| - 1]}
  {
    var init := xs[..|xs| - 1];
    assert xs == init + [xs[|xs| - 1]];
  }

  /** A sequence without repeats has as many distinct values as positions. */
  lemma {:induction false} DistinctCard(xs: seq<int>)
    requires Distinct(xs)
    ensures |Elems(xs)| == |xs|
  {
    if |xs| > 0 {
      DistinctInit(xs);
      DistinctCard(xs[..|xs| - 1]);
    }
  }

  /** Over a sequence without repeats, the intersection count is the number of its values
      that are also values of `ys`. */
  lemma {:induction false} CountInIsSetSize(xs: seq<int>, ys: seq<int>)
    requires Distinct(xs)
    ensures CountIn(xs, ys) == |Elems(xs) * Elems(ys)|
  {
    if |xs| > 0 {
      var init, last := xs[..|xs| - 1], xs[|xs| - 1];
      DistinctInit(xs);
      CountInIsSetSize(init, ys);
      AddOne(Elems(init), Elems(ys), last);
    }
  }

  /** Over a sequence without repeats, the count of values missing from `ys` is the number
      of its values that are not values of `ys`. */
  lemma {:induction false} CountNotInIsSetSize(xs: seq<int>, ys: seq<int>)
    requires Distinct(xs)
    ensures CountNotIn(xs, ys) == |Elems(xs) - Elems(ys)|
  {
    if |xs| > 0 {
      var init, last := xs[..|xs| - 1], xs[|xs| - 1];
      DistinctInit(xs);
      CountNotInIsSetSize(init, ys);
      AddOne(Elems(init), Elems(ys), last);
    }
  }

  /** Adding a new value to `a` adds one to its intersection with `y` when the value is in
      `y`, and one to its difference with `y` otherwise. */
  lemma AddOne(a: set<int>, y: set<int>, x: int)
    requires x !in a
    ensures |(a + {x}) * y| == |a * y| + (if x in y then 1 else 0)
    ensures |(a + {x}) - y| == |a - y| + (if x in y then 0 else 1)
  {
    if x in y {
      assert (a + {x}) * y == (a * y) + {x};
      assert (a + {x}) - y == a - y;
    } else {
      assert (a + {x}) * y == a * y;
      assert (a + {x}) - y == (a - y) + {x};
    }
  }

  /** The set sizes behind sum_union on two friend lists without repeats: the union count is
      the size of the union of their values, and equals `count1 + count2` less the
      intersection count. */
  lemma UnionIsSetUnion(xs: seq<int>, ys: seq<int>)
    requires Distinct(xs) && Distinct(ys)
    ensures |xs| + CountNotIn(ys, xs) == |Elems(xs) + Elems(ys)|
    ensures |xs| + CountNotIn(ys, xs) == |xs| + |ys| - CountIn(xs, ys)
  {
    var a, b := Elems(xs), Elems(ys);
    DistinctCard(xs);
    DistinctCard(ys);
    CountNotInIsSetSize(ys, xs);
    CountInIsSetSize(xs, ys);
    assert a + b == a + (b - a);
    assert a * (b - a) == {};
    assert b == (b - a) + (b * a);
    assert (b - a) * (b * a) == {};
    assert b * a == a * b;
  }

  // ---------------------------------------------------------------- compute_soc

  /** The strength of connection as the exact pair compute_soc divides: zero when the two
      users are not friends, otherwise the intersection count over the union count. */
  datatype Strength = Zero | Ratio(intersect: int, union: int)

  /** compute_soc: the strength of connection between two users. When they are friends the
      union of their friend sets holds the other user, so the denominator is at least one,
      and the ratio is the size of the intersection of their friend sets over the size of
      the union (the Jaccard index of their friendships). */
  method ComputeSoc(user1: int, user2: int, userCount: int, mtx: array2<int>) returns (s: Strength)
    requires 0 <= user1 < userCount && 0 <= user2 < userCount
    requires userCount <= mtx.Length0 && userCount <= mtx.Length1
    ensures s == Zero <==> mtx[user1, user2] == 0
    ensures s.Ratio? ==> 1 <= s.union && 0 <= s.intersect <= s.union
    ensures s.Ratio? ==>
              var f1, f2 := FriendsOf(mtx, user1, userCount), FriendsOf(mtx, user2, userCount);
              s.intersect == |Elems(f1) * Elems(f2)| && s.union == |Elems(f1) + Elems(f2)|
  {
    var friends1 := new int[userCount];
    var friends2 := new int[userCount];
    var f1Count := GetFriends(user1, userCount, mtx, friends1);
    var f2Count := GetFriends(user2, userCount, mtx, friends2);

    var intersectCount := SumIntersection(friends1, f1Count, friends2, f2Count);
    var unionCount := SumUnion(friends1, f1Count, friends2, f2Count);

    if mtx[user1, user2] != 0 {
      FriendCounts(mtx, user1, user2, userCount);
      return Ratio(intersectCount, unionCount);
    }
    return Zero;
  }

  /** For two friends, the counts compute_soc gets from the friend lists are the sizes of the
      intersection and of the union of the friend sets; the union holds the second user, and
      the intersection is no larger than the union. */
  lemma FriendCounts(mtx: array2<int>, user1: int, user2: int, userCount: int)
    requires 0 <= user1 < userCount && 0 <= user2 < userCount
    requires userCount <= mtx.Length0 && userCount <= mtx.Length1
    requires mtx[user1, user2] != 0
    ensures var f1, f2 := FriendsOf(mtx, user1, userCount), FriendsOf(mtx, user2, userCount);
            && CountIn(f1, f2) == |Elems(f1) * Elems(f2)|
            && |f1| + CountNotIn(f2, f1) == |Elems(f1) + Elems(f2)|
            && 1 <= |Elems(f1) + Elems(f2)|
            && |Elems(f1) * Elems(f2)| <= |Elems(f1) + Elems(f2)|
  {
    var f1, f2 := FriendsOf(mtx, user1, userCount), FriendsOf(mtx, user2, userCount);
    FriendsOfMembers(mtx, user1, userCount);
    FriendsOfMembers(mtx, user2, userCount);
    IncreasingIsDistinct(f1);
    IncreasingIsDistinct(f2);
    CountInIsSetSize(f1, f2);
    UnionIsSetUnion(f1, f2);
    assert user2 in Elems(f1);
    SubsetCard(Elems(f1) * Elems(f2), Elems(f1) + Elems(f2));
    SubsetCard({user2}, Elems(f1) + Elems(f2));
  }

  /** A strictly increasing sequence has no repeats. */
  lemma IncreasingIsDistinct(xs: seq<int>)
    requires StrictlyIncreasing(xs)
    ensures Distinct(xs)
  {
  }

  /** A subset is no larger than the set. */
  lemma {:induction false} SubsetCard(a: set<int>, b: set<int>)
    requires a <= b
    ensures |a| <= |b|
  {
    assert b == a + (b - a);
    assert a * (b - a) == {};
  }
}
