/**
 * The helpers an `ExtendedEnum` class offers. An enumeration class is modelled
 * by the sequence of its members in declaration order, which is the order in
 * which Python iterates over an `Enum` class; `IsEnumeration` states that, as
 * for an `Enum` without aliases, no member is listed twice.
 */
module ExtendedEnum {
  import opened Results
  import opened Lists
  import PyRandom

  predicate IsEnumeration<T(==)>(members: seq<T>) {
    Distinct(members)
  }

  /** `values()`: `[c for c in cls]`, every member once, in declaration order. */
  function Values<T>(members: seq<T>): (r: seq<T>)
    ensures |r| == |members|
    ensures forall i :: 0 <= i < |r| ==> r[i] == members[i]
  {
    seq(|members|, i requires 0 <= i < |members| => members[i])
  }

  /** `all()`: the same list as `values()`. */
  function All<T>(members: seq<T>): (r: seq<T>)
    ensures r == members
  {
    Values(members)
  }

  /** `amount()`: the number of members. */
  function Amount<T>(members: seq<T>): (r: nat)
    ensures r == |members|
  {
    |Values(members)|
  }

  /**
   * `value_of_index(index)`: `cls(cls.values()[index])`. Python indexing lets a
   * negative index count from the end; `cls(member)` gives the member back.
   */
  function ValueOfIndex<T>(members: seq<T>, index: int): (r: Result<T>)
    ensures r.Ok? <==> -|members| <= index < |members|
    ensures r.Ok? ==> r.value in members
    ensures r.Err? ==> r.error == IndexOutOfRange
  {
    At(Values(members), index)
  }

  /** `index_of(value)`: `cls.values().index(value)`. */
  function IndexOf<T(==)>(members: seq<T>, m: T): (r: Result<nat>)
    ensures r.Ok? <==> m in members
    ensures r.Ok? ==> r.value < Amount(members) && members[r.value] == m
    ensures r.Err? ==> r.error == NotInList
  {
    Lists.IndexOf(Values(members), m)
  }

  /** `random()`: `random.choice(cls.values())`. */
  function Random<T>(members: seq<T>, raw: nat): (r: Result<T>)
    ensures r.Ok? <==> |members| > 0
    ensures r.Ok? ==> r.value in members
    ensures r.Err? ==> r.error == EmptySequence
  {
    PyRandom.Choice(Values(members), raw)
  }

  /** Every non-negative index in range names the member `index_of` maps back to it. */
  lemma IndexOfValueOfIndex<T>(members: seq<T>, i: nat)
    requires IsEnumeration(members) && i < Amount(members)
    ensures ValueOfIndex(members, i).Ok?
    ensures IndexOf(members, ValueOfIndex(members, i).value) == Ok(i)
  {
    assert Values(members) == members;
    DistinctIndexOf(members, i);
  }

  /** Every member is found again by looking up its own index. */
  lemma ValueOfIndexIndexOf<T>(members: seq<T>, m: T)
    requires m in members
    ensures IndexOf(members, m).Ok?
    ensures ValueOfIndex(members, IndexOf(members, m).value) == Ok(m)
  {
  }

  /** A negative index names the same member as the index `amount()` places further on. */
  lemma NegativeIndexCountsFromEnd<T>(members: seq<T>, i: int)
    requires -|members| <= i < 0
    ensures ValueOfIndex(members, i) == ValueOfIndex(members, i + Amount(members))
  {
  }

  /** `index_of` on something that is not a member raises ValueError. */
  lemma IndexOfNonMember<T>(members: seq<T>, m: T)
    requires m !in members
    ensures IndexOf(members, m) == Err(NotInList)
  {
  }

  /** The draw `i` makes `random()` produce the member at position `i`. */
  lemma RandomAt<T>(members: seq<T>, i: nat)
    requires i < |members|
    ensures Random(members, i) == Ok(members[i])
  {
    PyRandom.ChoiceAt(Values(members), i);
  }

  /** Every member is a possible outcome of `random()`. */
  lemma RandomReachesEveryMember<T>(members: seq<T>, m: T)
    requires m in members
    ensures exists raw: nat :: Random(members, raw) == Ok(m)
  {
    var i :| 0 <= i < |members| && members[i] == m;
    RandomAt(members, i);
  }
}
