/**
 * The `Random` utility class: thin wrappers over Python's `random` module and
 * the sampler `get_random_items_from_list`, which draws from a caller's list
 * and, when duplicates are not allowed, removes each drawn element from that
 * list in place.
 */
module RandomUtils {
  import opened Results
  import opened Lists
  import PyRandom
  import ExtendedEnum

  /** `get_random_boolean()`: `bool(random.getrandbits(1))`. */
  function GetRandomBoolean(raw: nat): bool {
    PyRandom.RandBit(raw) != 0
  }

  /** `get_random_int_in_range(minimum, maximum)`: `random.randint(minimum, maximum)`. */
  function GetRandomIntInRange(minimum: int, maximum: int, raw: nat): (r: Result<int>)
    ensures r.Ok? <==> minimum <= maximum
    ensures r.Ok? ==> minimum <= r.value <= maximum
    ensures r.Err? ==> r.error == EmptyRange
  {
    PyRandom.RandInt(minimum, maximum, raw)
  }

  /** `get_random_int()`: an integer from 0 to 100. */
  function GetRandomInt(raw: nat): (r: Result<int>)
    ensures r.Ok? && 0 <= r.value <= 100
  {
    GetRandomIntInRange(0, 100, raw)
  }

  /** `get_random_character()`: `chr(random.randint(0, 255))`. */
  function GetRandomCharacter(raw: nat): (c: char)
    ensures 0 <= c as int <= 255
  {
    var code := GetRandomIntInRange(0, 255, raw).value;
    code as char
  }

  predicate IsAlphanumeric(c: char) {
    'a' <= c <= 'z' || 'A' <= c <= 'Z' || '0' <= c <= '9'
  }

  /** `count` consecutive characters, starting at `first`. */
  function CharRange(first: char, count: nat): (s: string)
    requires first as int + count <= 0xD800
    ensures |s| == count
    ensures forall i :: 0 <= i < count ==> s[i] as int == first as int + i
  {
    if count == 0 then [] else CharRange(first, count - 1) + [(first as int + count - 1) as char]
  }

  /** `string.ascii_letters + string.digits`: `a`-`z`, then `A`-`Z`, then `0`-`9`. */
  function Alphanumerics(): (s: string)
    ensures |s| == 62
    ensures forall c :: c in s ==> IsAlphanumeric(c)
  {
    CharRange('a', 26) + CharRange('A', 26) + CharRange('0', 10)
  }

  /** `get_random_string_of_length(length)`: `length` picks from the alphabet, none when `length <= 0`. */
  function GetRandomStringOfLength(length: int, rng: nat -> nat): (s: string)
    ensures |s| == if length > 0 then length else 0
    ensures forall i :: 0 <= i < |s| ==> IsAlphanumeric(s[i])
  {
    PyRandom.Choices(Alphanumerics(), length, rng)
  }

  /**
   * `get_random_string()`: the length is drawn first, from `randint(3, 10)`,
   * then the characters from the rest of the stream.
   */
  function GetRandomString(rng: nat -> nat): (s: string)
    ensures 3 <= |s| <= 10
    ensures forall i :: 0 <= i < |s| ==> IsAlphanumeric(s[i])
  {
    var length := GetRandomIntInRange(3, 10, rng(0)).value;
    GetRandomStringOfLength(length, (i: nat) => rng(i + 1))
  }

  /** `get_random_item_from_list(items)`: `random.choice(items)`. */
  function GetRandomItemFromList<T>(items: seq<T>, raw: nat): (r: Result<T>)
    ensures r.Ok? <==> |items| > 0
    ensures r.Ok? ==> r.value in items
    ensures r.Err? ==> r.error == EmptySequence
  {
    PyRandom.Choice(items, raw)
  }

  /** `get_random_enum(enum)`: `enum.random()`. */
  function GetRandomEnum<T>(members: seq<T>, raw: nat): (r: Result<T>)
    ensures r.Ok? <==> |members| > 0
    ensures r.Ok? ==> r.value in members
    ensures r.Err? ==> r.error == EmptySequence
  {
    ExtendedEnum.Random(members, raw)
  }

  /** The draws 1 and 0 give `True` and `False`. */
  lemma GetRandomBooleanAt(raw: nat)
    requires raw <= 1
    ensures GetRandomBoolean(raw) <==> raw == 1
  {
    assert PyRandom.RandBit(raw) == raw;
  }

  /** Both truth values are possible outcomes of `get_random_boolean()`. */
  lemma GetRandomBooleanTakesBothValues()
    ensures exists raw: nat :: GetRandomBoolean(raw)
    ensures exists raw: nat :: !GetRandomBoolean(raw)
  {
    GetRandomBooleanAt(1);
    GetRandomBooleanAt(0);
  }

  /** Every integer of the range is a possible outcome of `get_random_int_in_range`. */
  lemma GetRandomIntInRangeReachesAll(minimum: int, maximum: int, v: int)
    requires minimum <= v <= maximum
    ensures GetRandomIntInRange(minimum, maximum, v - minimum) == Ok(v)
  {
    PyRandom.RandIntReaches(minimum, maximum, v);
  }

  // ---------------------------------------------------------------------------
  // get_random_items_from_list

  const OverdrawMessage := "Amount must be less than or equal to list size when unique is true"

  /** A Python list object, shared between the caller and the sampler. */
  class PyList<T(==)> {
    var elems: seq<T>

    constructor (elems: seq<T>)
      ensures this.elems == elems
    {
      this.elems := elems;
    }

    /** `list.remove(x)` for an element known to be present. */
    method Remove(x: T)
      requires x in elems
      modifies this
      ensures elems == RemoveFirst(old(elems), x)
    {
      elems := RemoveFirst(elems, x);
    }
  }

  /** What a call of the sampler leaves behind: its return value or exception, and the caller's list. */
  datatype Outcome<T> = Outcome(selections: Result<seq<T>>, items: seq<T>)

  /**
   * Iterations `i` to `n - 1` of the sampler's loop, run on the list `pool`
   * after `picked` has been selected; iteration `i` uses the draw `rng(i)`.
   */
  function Draws<T(==)>(pool: seq<T>, picked: seq<T>, i: nat, n: nat, allowDuplicates: bool, rng: nat -> nat): Outcome<T>
    decreases n - i
  {
    if i >= n then Outcome(Ok(picked), pool)
    else
      match PyRandom.Choice(pool, rng(i))
      case Err(e) => Outcome(Err(e), pool)
      case Ok(choice) =>
        var pool' := if allowDuplicates then pool else RemoveFirst(pool, choice);
        Draws(pool', picked + [choice], i + 1, n, allowDuplicates, rng)
  }

  /** The whole call `get_random_items_from_list(items, amount, allow_duplicates)`. */
  function Sample<T(==)>(items: seq<T>, amount: int, allowDuplicates: bool, rng: nat -> nat): Outcome<T> {
    if !allowDuplicates && amount > |items| then Outcome(Err(ValueError(OverdrawMessage)), items)
    else Draws(items, [], 0, if amount > 0 then amount else 0, allowDuplicates, rng)
  }

  /**
   * `get_random_items_from_list(items, amount, allow_duplicates)`: the loop
   * draws `amount` times with `random.choice(items)`, removes each choice from
   * `items` unless duplicates are allowed, and collects the choices.
   */
  method GetRandomItemsFromList<T(==)>(items: PyList<T>, amount: int, allowDuplicates: bool, rng: nat -> nat)
    returns (selections: Result<seq<T>>)
    modifies items
    ensures Outcome(selections, items.elems) == Sample(old(items.elems), amount, allowDuplicates, rng)
  {
    if !allowDuplicates && amount > |items.elems| {
      return Err(ValueError(OverdrawMessage));
    }
    ghost var n := if amount > 0 then amount else 0;
    var picked := [];
    var i := 0;
    while i < amount
      invariant 0 <= i <= n
      invariant Draws(items.elems, picked, i, n, allowDuplicates, rng)
             == Draws(old(items.elems), [], 0, n, allowDuplicates, rng)
    {
      var choice := PyRandom.Choice(items.elems, rng(i));
      if choice.Err? {
        return Err(choice.error);
      }
      if !allowDuplicates {
        items.Remove(choice.value);
      }
      picked := picked + [choice.value];
      i := i + 1;
    }
    return Ok(picked);
  }

  // Properties of the sampler, stated on Sample and proved from the loop model.

  lemma {:induction false} DrawsWithDuplicates<T>(pool: seq<T>, picked: seq<T>, i: nat, n: nat, rng: nat -> nat)
    requires i <= n
    ensures var o := Draws(pool, picked, i, n, true, rng);
      && o.items == pool
      && (o.selections.Ok? <==> i == n || |pool| > 0)
      && (o.selections.Err? ==> o.selections.error == EmptySequence)
      && (o.selections.Ok? ==>
            && |o.selections.value| == |picked| + (n - i)
            && o.selections.value[..|picked|] == picked
            && forall j :: |picked| <= j < |o.selections.value| ==> o.selections.value[j] in pool)
    decreases n - i
  {
    if i < n && |pool| > 0 {
      var choice := PyRandom.Choice(pool, rng(i)).value;
      DrawsWithDuplicates(pool, picked + [choice], i + 1, n, rng);
      var r := Draws(pool, picked, i, n, true, rng).selections.value;
      assert r[..|picked| + 1] == picked + [choice];
      assert r[..|picked|] == r[..|picked| + 1][..|picked|];
    }
  }

  lemma {:induction false} DrawsWithoutDuplicates<T>(pool: seq<T>, picked: seq<T>, i: nat, n: nat, rng: nat -> nat)
    requires i <= n && n - i <= |pool|
    ensures var o := Draws(pool, picked, i, n, false, rng);
      && o.selections.Ok?
      && |o.selections.value| == |picked| + (n - i)
      && |o.items| == |pool| - (n - i)
      && multiset(pool) + multiset(picked) == multiset(o.items) + multiset(o.selections.value)
    decreases n - i
  {
    if i < n {
      var choice := PyRandom.Choice(pool, rng(i)).value;
      var pool' := RemoveFirst(pool, choice);
      var picked' := picked + [choice];
      RemoveFirstMultiset(pool, choice);
      assert multiset(picked') == multiset(picked) + multiset{choice};
      DrawsWithoutDuplicates(pool', picked', i + 1, n, rng);
    }
  }

  /**
   * The sampler fails exactly when unique draws ask for more than the list
   * holds (ValueError, before any draw) or when at least one draw is asked of
   * an empty list (IndexError from `random.choice`); a failed call leaves the
   * list as it was.
   */
  lemma SampleFailsExactly<T>(items: seq<T>, amount: int, allowDuplicates: bool, rng: nat -> nat)
    ensures var o := Sample(items, amount, allowDuplicates, rng);
      && (o.selections.Err? <==>
            (!allowDuplicates && amount > |items|) || (allowDuplicates && amount > 0 && items == []))
      && (!allowDuplicates && amount > |items| ==> o.selections == Err(ValueError(OverdrawMessage)))
      && (allowDuplicates && amount > 0 && items == [] ==> o.selections == Err(EmptySequence))
      && (o.selections.Err? ==> o.items == items)
  {
    var n := if amount > 0 then amount else 0;
    if allowDuplicates {
      DrawsWithDuplicates(items, [], 0, n, rng);
    } else if amount <= |items| {
      DrawsWithoutDuplicates(items, [], 0, n, rng);
    }
  }

  /** A successful call returns exactly `amount` elements (none for `amount <= 0`). */
  lemma SampleLength<T>(items: seq<T>, amount: int, allowDuplicates: bool, rng: nat -> nat)
    requires Sample(items, amount, allowDuplicates, rng).selections.Ok?
    ensures |Sample(items, amount, allowDuplicates, rng).selections.value| == if amount > 0 then amount else 0
  {
    var n := if amount > 0 then amount else 0;
    if allowDuplicates {
      DrawsWithDuplicates(items, [], 0, n, rng);
    } else {
      DrawsWithoutDuplicates(items, [], 0, n, rng);
    }
  }

  /** With `amount <= 0` the loop never runs: the result is `[]` and the list is untouched. */
  lemma SampleNothing<T>(items: seq<T>, amount: int, allowDuplicates: bool, rng: nat -> nat)
    requires amount <= 0
    ensures Sample(items, amount, allowDuplicates, rng) == Outcome(Ok([]), items)
  {
  }

  /** Every selected element is an element of the caller's list. */
  lemma SampleMembers<T>(items: seq<T>, amount: int, allowDuplicates: bool, rng: nat -> nat)
    requires Sample(items, amount, allowDuplicates, rng).selections.Ok?
    ensures forall x :: x in Sample(items, amount, allowDuplicates, rng).selections.value ==> x in items
  {
    var n := if amount > 0 then amount else 0;
    var o := Draws(items, [], 0, n, allowDuplicates, rng);
    if allowDuplicates {
      DrawsWithDuplicates(items, [], 0, n, rng);
    } else {
      assert n <= |items|;
      DrawsWithoutDuplicates(items, [], 0, n, rng);
      assert multiset(items) == multiset(o.items) + multiset(o.selections.value);
      forall x | x in o.selections.value ensures x in items {
        assert multiset(items)[x] == multiset(o.items)[x] + multiset(o.selections.value)[x];
        assert x in multiset(items);
      }
    }
  }

  /** Draws with duplicates allowed never change the caller's list. */
  lemma SampleWithDuplicatesKeepsItems<T>(items: seq<T>, amount: int, rng: nat -> nat)
    ensures Sample(items, amount, true, rng).items == items
  {
    DrawsWithDuplicates(items, [], 0, if amount > 0 then amount else 0, rng);
  }

  /**
   * Unique draws move elements from the caller's list to the result: together
   * they hold the original multiset, and the list is `amount` shorter.
   */
  lemma SampleWithoutDuplicatesPartitions<T>(items: seq<T>, amount: int, rng: nat -> nat)
    requires 0 <= amount <= |items|
    ensures var o := Sample(items, amount, false, rng);
      && o.selections.Ok?
      && multiset(items) == multiset(o.items) + multiset(o.selections.value)
      && |o.items| == |items| - amount
  {
    DrawsWithoutDuplicates(items, [], 0, amount, rng);
  }

  /** Unique draws from a list without repeated elements select no element twice. */
  lemma SampleWithoutDuplicatesIsDistinct<T>(items: seq<T>, amount: int, rng: nat -> nat)
    requires Distinct(items) && amount <= |items|
    ensures Sample(items, amount, false, rng).selections.Ok?
    ensures Distinct(Sample(items, amount, false, rng).selections.value)
  {
    var n := if amount > 0 then amount else 0;
    DrawsWithoutDuplicates(items, [], 0, n, rng);
    var o := Draws(items, [], 0, n, false, rng);
    var picked := o.selections.value;
    assert multiset(items) == multiset(o.items) + multiset(picked);
    DistinctIffSingleCounts(items);
    forall x ensures multiset(picked)[x] <= 1 {
      assert multiset(items)[x] == multiset(o.items)[x] + multiset(picked)[x];
    }
    DistinctIffSingleCounts(picked);
  }

  /** Drawing the whole list without duplicates returns a permutation of it and empties the list. */
  lemma SampleWholeListIsPermutation<T>(items: seq<T>, rng: nat -> nat)
    ensures var o := Sample(items, |items|, false, rng);
      && o.selections.Ok?
      && multiset(o.selections.value) == multiset(items)
      && o.items == []
  {
    SampleWithoutDuplicatesPartitions(items, |items|, rng);
  }

  lemma {:induction false} DrawsReaches<T>(items: seq<T>, s: seq<T>, i: nat, rng: nat -> nat)
    requires i <= |s|
    requires forall j :: i <= j < |s| ==> IndexOf(items, s[j]).Ok? && rng(j) == IndexOf(items, s[j]).value
    ensures Draws(items, s[..i], i, |s|, true, rng) == Outcome(Ok(s), items)
    decreases |s| - i
  {
    if i < |s| {
      var k := IndexOf(items, s[i]).value;
      PyRandom.ChoiceAt(items, k);
      assert PyRandom.Choice(items, rng(i)) == Ok(s[i]);
      assert s[..i] + [s[i]] == s[..i + 1];
      DrawsReaches(items, s, i + 1, rng);
    } else {
      assert s[..i] == s;
    }
  }

  /** With duplicates allowed, every sequence of `amount` elements of the list is a possible result. */
  lemma SampleWithDuplicatesReachesAll<T>(items: seq<T>, s: seq<T>)
    requires forall x :: x in s ==> x in items
    ensures exists rng: nat -> nat :: Sample(items, |s|, true, rng) == Outcome(Ok(s), items)
  {
    var rng := (j: nat) => if j < |s| then IndexOf(items, s[j]).value else 0;
    DrawsReaches(items, s, 0, rng);
    assert s[..0] == [];
    assert Sample(items, |s|, true, rng) == Outcome(Ok(s), items);
  }
  /** An iteration reads only its own draw and the later ones. */
  lemma {:induction false} DrawsReadOnlyLaterDraws<T>(pool: seq<T>, picked: seq<T>, i: nat, n: nat, allowDuplicates: bool,
                                                      rng: nat -> nat, rng': nat -> nat)
    requires forall j: nat :: i <= j ==> rng(j) == rng'(j)
    ensures Draws(pool, picked, i, n, allowDuplicates, rng) == Draws(pool, picked, i, n, allowDuplicates, rng')
    decreases n - i
  {
    if i < n {
      assert rng(i) == rng'(i);
      match PyRandom.Choice(pool, rng(i))
      case Err(_) =>
      case Ok(choice) =>
        var pool' := if allowDuplicates then pool else RemoveFirst(pool, choice);
        DrawsReadOnlyLaterDraws(pool', picked + [choice], i + 1, n, allowDuplicates, rng, rng');
    }
  }

  /** What the list still holds covers the rest of the draws after the first one is removed from both. */
  lemma RemainingFitsAfterRemove<T>(pool: seq<T>, rest: seq<T>)
    requires |rest| > 0 && multiset(rest) <= multiset(pool)
    ensures rest[0] in pool
    ensures multiset(rest[1..]) <= multiset(RemoveFirst(pool, rest[0]))
  {
    var x := rest[0];
    assert rest == [x] + rest[1..];
    assert x in multiset(pool);
    RemoveFirstMultiset(pool, x);
    forall y ensures multiset(rest[1..])[y] <= multiset(RemoveFirst(pool, x))[y] {
      assert multiset(rest)[y] == multiset{x}[y] + multiset(rest[1..])[y];
      assert multiset(pool)[y] == multiset(RemoveFirst(pool, x))[y] + multiset{x}[y];
    }
  }

  /** Drawing the position of `x` first, then following `rng'`, selects `x` and whatever `rng'` selects after it. */
  lemma DrawFirstWithoutDuplicates<T>(pool: seq<T>, picked: seq<T>, x: T, i: nat, n: nat, rng': nat -> nat, result: seq<T>)
      returns (rng: nat -> nat)
    requires x in pool && i < n
    requires Draws(RemoveFirst(pool, x), picked + [x], i + 1, n, false, rng').selections == Ok(result)
    ensures Draws(pool, picked, i, n, false, rng).selections == Ok(result)
  {
    var k := IndexOf(pool, x).value;
    rng := (j: nat) => if j == i then k else rng'(j);
    DrawsReadOnlyLaterDraws(RemoveFirst(pool, x), picked + [x], i + 1, n, false, rng, rng');
    PyRandom.ChoiceAt(pool, k);
    assert PyRandom.Choice(pool, rng(i)) == Ok(x);
  }

  /**
   * Without duplicates, the loop can select any `rest` whose elements the
   * list still holds, counted with their multiplicities.
   */
  lemma {:induction false} DrawsWithoutDuplicatesReaches<T>(pool: seq<T>, picked: seq<T>, rest: seq<T>, i: nat, n: nat)
    requires multiset(rest) <= multiset(pool) && n == i + |rest|
    ensures |rest| <= |pool|
    ensures exists rng: nat -> nat :: Draws(pool, picked, i, n, false, rng).selections == Ok(picked + rest)
    decreases |rest|
  {
    if |rest| == 0 {
      var rng := (j: nat) => 0;
      assert picked + rest == picked;
      assert Draws(pool, picked, i, n, false, rng).selections == Ok(picked + rest);
    } else {
      var x := rest[0];
      RemainingFitsAfterRemove(pool, rest);
      DrawsWithoutDuplicatesReaches(RemoveFirst(pool, x), picked + [x], rest[1..], i + 1, n);
      assert picked + [x] + rest[1..] == picked + rest;
      var rng' :| Draws(RemoveFirst(pool, x), picked + [x], i + 1, n, false, rng').selections == Ok(picked + rest);
      var rng := DrawFirstWithoutDuplicates(pool, picked, x, i, n, rng', picked + rest);
    }
  }

  /**
   * Without duplicates, every sequence that takes each element of the list at
   * most as often as the list holds it is a possible result.
   */
  lemma SampleWithoutDuplicatesReachesAll<T>(items: seq<T>, s: seq<T>)
    requires multiset(s) <= multiset(items)
    ensures exists rng: nat -> nat :: Sample(items, |s|, false, rng).selections == Ok(s)
  {
    DrawsWithoutDuplicatesReaches(items, [], s, 0, |s|);
    var rng :| Draws(items, [], 0, |s|, false, rng).selections == Ok([] + s);
    assert [] + s == s;
    assert Sample(items, |s|, false, rng).selections == Ok(s);
  }
}
