/** The operations of Python's `list` that the modelled code relies on. */
module Lists {
  import opened Results

  /** No element occurs twice. */
  predicate Distinct<T(==)>(s: seq<T>) {
    forall i, j :: 0 <= i < j < |s| ==> s[i] != s[j]
  }

  /** `s.index(x)`: the position of the first element equal to `x`. */
  function IndexOf<T(==)>(s: seq<T>, x: T): (r: Result<nat>)
    ensures r.Ok? <==> x in s
    ensures r.Ok? ==> r.value < |s| && s[r.value] == x && x !in s[..r.value]
    ensures r.Err? ==> r.error == NotInList
  {
    if |s| == 0 then Err(NotInList)
    else if s[0] == x then Ok(0)
    else
      match IndexOf(s[1..], x)
      case Ok(k) =>
        assert s[..k + 1] == [s[0]] + s[1..][..k];
        Ok(k + 1)
      case Err(e) => Err(e)
  }

  /** `s.remove(x)`: drops the first element equal to `x`. */
  function RemoveFirst<T(==)>(s: seq<T>, x: T): (r: seq<T>)
    requires x in s
    ensures |r| == |s| - 1
  {
    if s[0] == x then s[1..] else [s[0]] + RemoveFirst(s[1..], x)
  }

  /** `remove` takes out the element at the position `index` reports, and only that one. */
  lemma {:induction false} RemoveFirstDropsFirstOccurrence<T>(s: seq<T>, x: T)
    requires x in s
    ensures IndexOf(s, x).Ok?
    ensures RemoveFirst(s, x) == s[..IndexOf(s, x).value] + s[IndexOf(s, x).value + 1..]
  {
    if s[0] != x {
      assert x in s[1..];
      RemoveFirstDropsFirstOccurrence(s[1..], x);
      var k := IndexOf(s[1..], x).value;
      assert IndexOf(s, x) == Ok(k + 1);
      RemoveFirstStep(s, x, k);
    }
  }

  /** One step of the induction above: a first element other than `x` stays in front. */
  lemma RemoveFirstStep<T>(s: seq<T>, x: T, k: nat)
    requires 0 < |s| && s[0] != x && x in s[1..] && k < |s| - 1
    requires RemoveFirst(s[1..], x) == s[1..][..k] + s[1..][k + 1..]
    ensures RemoveFirst(s, x) == s[..k + 1] + s[k + 2..]
  {
    var t := s[1..];
    assert RemoveFirst(s, x) == [s[0]] + (t[..k] + t[k + 1..]);
    assert s[..k + 1] == [s[0]] + t[..k];
    assert s[k + 2..] == t[k + 1..];
  }

  /** `s[index]`, where a negative index counts from the end. */
  function At<T>(s: seq<T>, index: int): (r: Result<T>)
    ensures r.Ok? <==> -|s| <= index < |s|
    ensures r.Ok? ==> r.value == s[index % |s|]
    ensures r.Err? ==> r.error == IndexOutOfRange
  {
    if 0 <= index < |s| then Ok(s[index])
    else if -|s| <= index < 0 then Ok(s[|s| + index])
    else Err(IndexOutOfRange)
  }

  /** Removing one occurrence of `x` takes exactly one `x` out of the multiset. */
  lemma {:induction false} RemoveFirstMultiset<T>(s: seq<T>, x: T)
    requires x in s
    ensures |RemoveFirst(s, x)| == |s| - 1
    ensures multiset(RemoveFirst(s, x)) + multiset{x} == multiset(s)
  {
    assert s == [s[0]] + s[1..];
    if s[0] != x {
      assert x in s[1..];
      RemoveFirstMultiset(s[1..], x);
      assert RemoveFirst(s, x) == [s[0]] + RemoveFirst(s[1..], x);
    }
  }

  /** A sequence is distinct exactly when no element has multiplicity above one. */
  lemma {:induction false} DistinctIffSingleCounts<T>(s: seq<T>)
    ensures Distinct(s) <==> forall x :: multiset(s)[x] <= 1
  {
    if Distinct(s) {
      DistinctHasSingleCounts(s);
    } else {
      var i, j :| 0 <= i < j < |s| && s[i] == s[j];
      assert s == s[..j] + s[j..];
      assert s[..j][i] == s[i];
      assert s[j..][0] == s[i];
      assert multiset(s)[s[i]] == multiset(s[..j])[s[i]] + multiset(s[j..])[s[i]];
    }
  }

  lemma {:induction false} DistinctHasSingleCounts<T>(s: seq<T>)
    requires Distinct(s)
    ensures forall x :: multiset(s)[x] <= 1
  {
    if |s| > 0 {
      var t := s[1..];
      assert Distinct(t) by {
        forall i, j | 0 <= i < j < |t| ensures t[i] != t[j] {
          assert t[i] == s[i + 1] && t[j] == s[j + 1];
        }
      }
      DistinctHasSingleCounts(t);
      assert s == [s[0]] + t;
      assert s[0] !in t by {
        forall j | 0 <= j < |t| ensures t[j] != s[0] {
          assert t[j] == s[j + 1];
        }
      }
      assert multiset(t)[s[0]] == 0;
    }
  }

  /** In a distinct sequence, `index` finds every element at its own position. */
  lemma DistinctIndexOf<T>(s: seq<T>, i: nat)
    requires Distinct(s) && i < |s|
    ensures IndexOf(s, s[i]) == Ok(i)
  {
  }
}
