/**
 * The list operations the solver's candidate evaluator is built from, on
 * sequences of `int`: `ArrayList.remove(Object)` (drop the first occurrence),
 * the list left after a series of such removals, and `TreeSet.retainAll`.
 * The functions are plain definitions; what they mean is stated by the
 * lemmas after each.
 */
module Lists {

  /** The strictly increasing order a `TreeSet<Integer>` iterates in. */
  predicate StrictlyAscending(s: seq<int>)
  {
    forall i, j :: 0 <= i < j < |s| ==> s[i] < s[j]
  }

  /** Putting the head of an ascending list in front of an ascending sublist of its tail keeps the order. */
  lemma PrependAscending(s: seq<int>, rest: seq<int>)
    requires s != [] && StrictlyAscending(s) && StrictlyAscending(rest)
    requires forall y :: y in rest ==> y in s[1..]
    ensures StrictlyAscending([s[0]] + rest)
  {
    forall y | y in rest ensures s[0] < y {
      var k :| 0 <= k < |s[1..]| && s[1..][k] == y;
      assert s[k + 1] == y;
    }
    var r := [s[0]] + rest;
    forall i, j | 0 <= i < j < |r| ensures r[i] < r[j] {
      assert r[j] == rest[j - 1] && r[j] in rest;
      if i > 0 { assert r[i] == rest[i - 1]; }
    }
  }

  /** `list.remove(Integer.valueOf(x))`: drops the first element equal to `x`, if any. */
  function RemoveFirst(s: seq<int>, x: int): seq<int>
  {
    if s == [] then []
    else if s[0] == x then s[1..]
    else [s[0]] + RemoveFirst(s[1..], x)
  }

  /** Removing a value the list does not hold leaves the list as it is. */
  lemma {:induction false} RemoveFirstAbsent(s: seq<int>, x: int)
    requires x !in s
    ensures RemoveFirst(s, x) == s
  {
    if s != [] {
      assert x != s[0] && x !in s[1..];
      RemoveFirstAbsent(s[1..], x);
      assert s == [s[0]] + s[1..];
    }
  }

  /** What `remove` takes out is the first occurrence of `x`: the list is cut around it. */
  lemma {:induction false} RemoveFirstCuts(s: seq<int>, x: int, k: int)
    requires 0 <= k < |s| && s[k] == x && x !in s[..k]
    ensures RemoveFirst(s, x) == s[..k] + s[k + 1..]
  {
    if k > 0 {
      assert s[0] in s[..k];
      assert s[1..][..k - 1] == s[1..k];
      RemoveFirstCuts(s[1..], x, k - 1);
      assert s[..k] == [s[0]] + s[1..k];
    }
  }

  /** The elements of `s` that are not in `banned`, in their order in `s`. */
  function Without(s: seq<int>, banned: set<int>): seq<int>
  {
    if s == [] then []
    else if s[0] in banned then Without(s[1..], banned)
    else [s[0]] + Without(s[1..], banned)
  }

  /** `Without` keeps exactly the elements that are not banned, keeps them in order, and never grows the list. */
  lemma {:induction false} WithoutFacts(s: seq<int>, banned: set<int>)
    ensures |Without(s, banned)| <= |s|
    ensures forall y :: y in Without(s, banned) <==> y in s && y !in banned
    ensures StrictlyAscending(s) ==> StrictlyAscending(Without(s, banned))
  {
    if s != [] {
      var rest := Without(s[1..], banned);
      WithoutFacts(s[1..], banned);
      assert forall y :: y in s <==> y == s[0] || y in s[1..];
      if s[0] !in banned && StrictlyAscending(s) {
        PrependAscending(s, rest);
      }
    }
  }

  /** `set.retainAll(keep)`: the elements of `s` that occur in `keep`, in their order in `s`. */
  function Retain(s: seq<int>, keep: seq<int>): seq<int>
  {
    if s == [] then []
    else if s[0] in keep then [s[0]] + Retain(s[1..], keep)
    else Retain(s[1..], keep)
  }

  /** `Retain` keeps exactly the elements that are also in `keep`, keeps them in order, and never grows the list. */
  lemma {:induction false} RetainFacts(s: seq<int>, keep: seq<int>)
    ensures |Retain(s, keep)| <= |s|
    ensures forall y :: y in Retain(s, keep) <==> y in s && y in keep
    ensures StrictlyAscending(s) ==> StrictlyAscending(Retain(s, keep))
  {
    if s != [] {
      var rest := Retain(s[1..], keep);
      RetainFacts(s[1..], keep);
      assert forall y :: y in s <==> y == s[0] || y in s[1..];
      if s[0] in keep && StrictlyAscending(s) {
        PrependAscending(s, rest);
      }
    }
  }

  /** Banning nothing keeps the whole list. */
  lemma {:induction false} WithoutNothing(s: seq<int>)
    ensures Without(s, {}) == s
  {
    if s != [] {
      WithoutNothing(s[1..]);
      assert s == [s[0]] + s[1..];
    }
  }

  /** Banning a value that does not occur in `s` changes nothing. */
  lemma {:induction false} WithoutAbsent(s: seq<int>, banned: set<int>, x: int)
    requires x !in s
    ensures Without(s, banned + {x}) == Without(s, banned)
  {
    if s != [] {
      assert x !in s[1..] by { assert forall y :: y in s[1..] ==> y in s; }
      WithoutAbsent(s[1..], banned, x);
    }
  }

  /**
   * On a list without repeated elements, removing the first occurrence of `x`
   * from what is left after banning `banned` is the same as banning `x` too:
   * this is why a series of `remove` calls leaves exactly the unbanned values.
   */
  lemma {:induction false} RemoveFirstWithout(s: seq<int>, banned: set<int>, x: int)
    requires StrictlyAscending(s)
    ensures RemoveFirst(Without(s, banned), x) == Without(s, banned + {x})
  {
    if s != [] {
      var t := s[1..];
      assert StrictlyAscending(t);
      RemoveFirstWithout(t, banned, x);
      if s[0] !in banned && s[0] == x {
        assert x !in t;
        WithoutAbsent(t, banned, x);
      }
    }
  }
}
