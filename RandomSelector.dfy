/** `shuffleArray` (Fisher-Yates on a copy) and `selectRandomEvaluators`
    (exclude, shuffle, take a prefix). `Math.random()` is replaced by a
    supplied sequence of drawn indices: the step for index i (i = n-1 down
    to 1) swaps position i with position `draws[i]`, which must lie in 0..i.
    Each step has its own i, so indexing the draws by i loses nothing.
    `Draw` shows that `Math.floor(Math.random() * (i + 1))` always yields
    such an index. */
module RandomSelector {
  import opened Domain
  import opened Tables

  /** There is a drawn index for every position of an array of length n,
      and the one for position i lies in 0..i. */
  predicate DrawsValid(draws: seq<nat>, n: nat) {
    && |draws| >= n
    && forall i :: 0 <= i < |draws| ==> draws[i] <= i
  }

  /** `Math.floor(Math.random() * (i + 1))` for a value r that
      `Math.random()` can return. */
  function Draw(r: real, i: nat): (j: nat)
    requires 0.0 <= r < 1.0
    ensures j <= i
  {
    var m := (i + 1) as real;
    var x := r * m;
    assert m - x == (1.0 - r) * m;
    assert (1.0 - r) * m > 0.0;
    x.Floor
  }

  /** The indices the source draws for an array of length n from the
      random numbers it obtains: the k-th call of `Math.random()` serves the
      step for index n-1-k. */
  function DrawsFromRandoms(rands: seq<real>, n: nat): (draws: seq<nat>)
    requires |rands| + 1 >= n
    requires forall k :: 0 <= k < |rands| ==> 0.0 <= rands[k] < 1.0
    ensures DrawsValid(draws, n) && |draws| == n
  {
    seq(n, i requires 0 <= i < n => if i == 0 then 0 else Draw(rands[n - 1 - i], i))
  }

  function Swap<T>(s: seq<T>, i: nat, j: nat): (r: seq<T>)
    requires i < |s| && j < |s|
    ensures |r| == |s| && r[i] == s[j] && r[j] == s[i]
  {
    s[i := s[j]][j := s[i]]
  }

  lemma SwapKeepsOthers<T>(s: seq<T>, i: nat, j: nat, k: nat)
    requires i < |s| && j < |s| && k < |s| && k != i && k != j
    ensures Swap(s, i, j)[k] == s[k]
  {
  }

  /** The swap steps for indices i, i-1, ..., 1, applied to s. */
  function ShuffleSteps<T>(s: seq<T>, draws: seq<nat>, i: nat): (r: seq<T>)
    requires i < |s| && DrawsValid(draws, |s|)
    ensures |r| == |s|
    decreases i
  {
    if i == 0 then s
    else ShuffleSteps(Swap(s, i, draws[i]), draws, i - 1)
  }

  /** The array `shuffleArray` returns for these random numbers. */
  function Shuffled<T>(s: seq<T>, draws: seq<nat>): (r: seq<T>)
    requires DrawsValid(draws, |s|)
    ensures |r| == |s|
  {
    if |s| == 0 then s else ShuffleSteps(s, draws, |s| - 1)
  }

  lemma SwapPermutes<T>(s: seq<T>, i: nat, j: nat)
    requires i < |s| && j < |s|
    ensures multiset(Swap(s, i, j)) == multiset(s)
  {
  }

  /** The swap steps only reorder the elements. */
  lemma {:induction false} ShuffleStepsPermutes<T>(s: seq<T>, draws: seq<nat>, i: nat)
    requires i < |s| && DrawsValid(draws, |s|)
    ensures multiset(ShuffleSteps(s, draws, i)) == multiset(s)
    decreases i
  {
    if i > 0 {
      SwapPermutes(s, i, draws[i]);
      ShuffleStepsPermutes(Swap(s, i, draws[i]), draws, i - 1);
    }
  }

  lemma ShuffledPermutes<T>(s: seq<T>, draws: seq<nat>)
    requires DrawsValid(draws, |s|)
    ensures multiset(Shuffled(s, draws)) == multiset(s)
  {
    if |s| > 0 {
      ShuffleStepsPermutes(s, draws, |s| - 1);
    }
  }

  /** The steps for i, ..., 1 leave every position above i alone. */
  lemma {:induction false} ShuffleStepsKeepAbove<T>(s: seq<T>, draws: seq<nat>, i: nat)
    requires i < |s| && DrawsValid(draws, |s|)
    ensures forall k :: i < k < |s| ==> ShuffleSteps(s, draws, i)[k] == s[k]
    decreases i
  {
    if i > 0 {
      var j := draws[i];
      var s' := Swap(s, i, j);
      ShuffleStepsUnfold(s, draws, i);
      ShuffleStepsKeepAbove(s', draws, i - 1);
      forall k | i < k < |s| ensures s'[k] == s[k] {
        SwapKeepsOthers(s, i, j, k);
      }
    }
  }

  /** The first step of `ShuffleSteps`, as a fact the loop can use. */
  lemma ShuffleStepsUnfold<T>(s: seq<T>, draws: seq<nat>, i: nat)
    requires 0 < i < |s| && DrawsValid(draws, |s|)
    ensures ShuffleSteps(s, draws, i) == ShuffleSteps(Swap(s, i, draws[i]), draws, i - 1)
  {
  }

  /** The loop of `shuffleArray`, on the array it swaps in. */
  method ShuffleInPlace<T>(a: array<T>, draws: seq<nat>)
    requires DrawsValid(draws, a.Length)
    modifies a
    ensures a[..] == Shuffled(old(a[..]), draws)
  {
    var n := a.Length;
    if n == 0 {
      return;
    }
    ghost var target := Shuffled(a[..], draws);
    var i := n - 1;
    ghost var cur := a[..];
    while i > 0
      invariant 0 <= i < n == |cur|
      invariant cur == a[..]
      invariant ShuffleSteps(cur, draws, i) == target
      invariant forall k :: i < k < n ==> a[k] == target[k]
    {
      var j := draws[i];
      assert 0 <= j <= i;
      ShuffleStepsUnfold(cur, draws, i);
      a[i], a[j] := a[j], a[i];
      cur := Swap(cur, i, j);
      assert cur == a[..];
      ShuffleStepsKeepAbove(cur, draws, i - 1);
      i := i - 1;
    }
  }

  /** `shuffleArray`: the input is copied into a fresh array, so the
      caller's array is left as it was. */
  method ShuffleArray<T>(input: seq<T>, draws: seq<nat>) returns (shuffled: seq<T>)
    requires DrawsValid(draws, |input|)
    ensures shuffled == Shuffled(input, draws)
    ensures multiset(shuffled) == multiset(input)
  {
    var a := new T[|input|](k requires 0 <= k < |input| => input[k]);
    assert a[..] == input;
    ShuffleInPlace(a, draws);
    shuffled := a[..];
    ShuffledPermutes(input, draws);
  }

  /** `allStudents.filter(student => !excludeIds.includes(student.id))`. */
  function Eligible(allStudents: seq<User>, excludeIds: seq<nat>): (r: seq<User>)
    ensures |r| <= |allStudents|
    ensures forall u <- r :: u in allStudents && u.id !in excludeIds
    ensures forall u <- allStudents :: u.id !in excludeIds ==> u in r
  {
    if allStudents == [] then []
    else
      var rest := Eligible(allStudents[1..], excludeIds);
      assert forall u <- allStudents :: u == allStudents[0] || u in allStudents[1..];
      if allStudents[0].id in excludeIds then rest else [allStudents[0]] + rest
  }

  /** `slice(0, count)`: the length of the prefix taken, a negative count
      counting back from the end as in JavaScript. */
  function SliceLength(count: int, n: nat): (len: nat)
    ensures len <= n
    ensures count >= 0 ==> len == if count < n then count else n
    ensures count < 0 ==> len == if n + count > 0 then n + count else 0
  {
    if count >= 0 then (if count < n then count else n)
    else if n + count > 0 then n + count else 0
  }

  lemma {:induction false} EligibleKeepsIdsUnique(allStudents: seq<User>, excludeIds: seq<nat>)
    requires KeysUnique(allStudents, UserId)
    ensures KeysUnique(Eligible(allStudents, excludeIds), UserId)
  {
    if allStudents != [] {
      var tail := allStudents[1..];
      assert KeysUnique(tail, UserId) by {
        forall i, j | 0 <= i < j < |tail| ensures tail[i].id != tail[j].id {
          assert tail[i] == allStudents[i + 1] && tail[j] == allStudents[j + 1];
        }
      }
      EligibleKeepsIdsUnique(tail, excludeIds);
      var rest := Eligible(tail, excludeIds);
      if allStudents[0].id !in excludeIds {
        forall u <- rest ensures u.id != allStudents[0].id {
          var k :| 0 <= k < |tail| && tail[k] == u;
          assert allStudents[k + 1] == u;
        }
        var r := [allStudents[0]] + rest;
        forall i, j | 0 <= i < j < |r| ensures r[i].id != r[j].id {
          if i == 0 {
            assert r[j] in rest;
          } else {
            assert r[i] == rest[i - 1] && r[j] == rest[j - 1];
          }
        }
      }
    }
  }

  lemma {:induction false} ShuffleStepsKeepIdsUnique(s: seq<User>, draws: seq<nat>, i: nat)
    requires i < |s| && DrawsValid(draws, |s|) && KeysUnique(s, UserId)
    ensures KeysUnique(ShuffleSteps(s, draws, i), UserId)
    decreases i
  {
    if i > 0 {
      var j := draws[i];
      var s' := Swap(s, i, j);
      forall a, b | 0 <= a < b < |s'| ensures s'[a].id != s'[b].id {
        var a' := if a == i then j else if a == j then i else a;
        var b' := if b == i then j else if b == j then i else b;
        if a != i && a != j { SwapKeepsOthers(s, i, j, a); }
        if b != i && b != j { SwapKeepsOthers(s, i, j, b); }
        assert s'[a] == s[a'] && s'[b] == s[b'];
        assert a' != b';
      }
      ShuffleStepsKeepIdsUnique(s', draws, i - 1);
    }
  }

  /** A prefix of a reordering of e holds only elements of e, each at most
      as often as e does. */
  lemma PrefixOfReordering<T>(e: seq<T>, sh: seq<T>, len: nat)
    requires multiset(sh) == multiset(e) && len <= |sh|
    ensures multiset(sh[..len]) <= multiset(e)
    ensures forall u <- sh[..len] :: u in e
  {
    assert sh == sh[..len] + sh[len..];
    forall u <- sh[..len] ensures u in e {
      assert u in multiset(sh);
    }
  }

  lemma PrefixKeepsIdsUnique(s: seq<User>, len: nat)
    requires KeysUnique(s, UserId) && len <= |s|
    ensures KeysUnique(s[..len], UserId)
  {
  }

  /** `selectRandomEvaluators`: the eligible students, shuffled, cut to
      `count`. */
  method SelectRandomEvaluators(allStudents: seq<User>, excludeIds: seq<nat>, count: int, draws: seq<nat>)
    returns (selected: seq<User>)
    requires DrawsValid(draws, |allStudents|)
    ensures |selected| == SliceLength(count, |Eligible(allStudents, excludeIds)|)
    ensures selected == Shuffled(Eligible(allStudents, excludeIds), draws)[..|selected|]
    ensures forall u <- selected :: u in allStudents && u.id !in excludeIds
    ensures multiset(selected) <= multiset(Eligible(allStudents, excludeIds))
    ensures KeysUnique(allStudents, UserId) ==> KeysUnique(selected, UserId)
  {
    var eligible := Eligible(allStudents, excludeIds);
    var shuffled := ShuffleArray(eligible, draws);
    var len := SliceLength(count, |shuffled|);
    selected := shuffled[..len];
    ShuffledPermutes(eligible, draws);
    PrefixOfReordering(eligible, shuffled, len);
    if KeysUnique(allStudents, UserId) {
      EligibleKeepsIdsUnique(allStudents, excludeIds);
      if |eligible| > 0 {
        ShuffleStepsKeepIdsUnique(eligible, draws, |eligible| - 1);
      }
      PrefixKeepsIdsUnique(shuffled, len);
    }
  }
}
