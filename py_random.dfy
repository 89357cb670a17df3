/**
 * The primitives of Python's `random` module that the modelled code calls.
 * The generator is not modelled: every draw is a number `raw` supplied by the
 * caller, and the primitive maps it onto its range. Each primitive can produce
 * every value of its range for some draw, so a property proved for all draws
 * holds for every outcome the real generator can produce.
 */
module PyRandom {
  import opened Results

  /** `random.randint(a, b)`: an integer of the closed range `[a, b]`. */
  function RandInt(a: int, b: int, raw: nat): (r: Result<int>)
    ensures r.Ok? <==> a <= b
    ensures r.Ok? ==> a <= r.value <= b
    ensures r.Err? ==> r.error == EmptyRange
  {
    if a <= b then Ok(a + raw % (b - a + 1)) else Err(EmptyRange)
  }

  /** `random.choice(s)`: one element of `s`. */
  function Choice<T>(s: seq<T>, raw: nat): (r: Result<T>)
    ensures r.Ok? <==> |s| > 0
    ensures r.Ok? ==> r.value in s
    ensures r.Err? ==> r.error == EmptySequence
  {
    if |s| == 0 then Err(EmptySequence) else Ok(s[raw % |s|])
  }

  /** `random.getrandbits(1)`: a single random bit. */
  function RandBit(raw: nat): (r: nat)
    ensures r == 0 || r == 1
  {
    raw % 2
  }

  /** `random.choices(population, k=k)`: `k` independent picks (none when `k <= 0`). */
  function Choices<T>(population: seq<T>, k: int, rng: nat -> nat): (r: seq<T>)
    requires |population| > 0
    ensures |r| == if k > 0 then k else 0
    ensures forall i :: 0 <= i < |r| ==> r[i] in population
  {
    seq(if k > 0 then k else 0, i requires 0 <= i => population[rng(i) % |population|])
  }

  /** The draw `v - a` makes `randint(a, b)` produce `v`. */
  lemma RandIntReaches(a: int, b: int, v: int)
    requires a <= v <= b
    ensures RandInt(a, b, v - a) == Ok(v)
  {
    assert (v - a) % (b - a + 1) == v - a;
  }

  /** The draw `i` makes `random.choice(s)` produce `s[i]`. */
  lemma ChoiceAt<T>(s: seq<T>, i: nat)
    requires i < |s|
    ensures Choice(s, i) == Ok(s[i])
  {
    assert i % |s| == i;
  }

  lemma ChoiceReaches<T>(s: seq<T>, i: nat)
    requires i < |s|
    ensures exists raw: nat :: Choice(s, raw) == Ok(s[i])
  {
    ChoiceAt(s, i);
  }

  lemma RandBitReaches(bit: nat)
    requires bit <= 1
    ensures exists raw: nat :: RandBit(raw) == bit
  {
    assert RandBit(bit) == bit;
  }

  /** Any `k` elements of the population, in any order, are a possible outcome of `choices`. */
  lemma ChoicesReaches<T>(population: seq<T>, picks: seq<nat>)
    requires forall i :: 0 <= i < |picks| ==> picks[i] < |population|
    requires |population| > 0
    ensures exists rng: nat -> nat ::
      Choices(population, |picks|, rng) == seq(|picks|, i requires 0 <= i < |picks| => population[picks[i]])
  {
    var rng := (i: nat) => if i < |picks| then picks[i] else 0;
    var r := Choices(population, |picks|, rng);
    forall i | 0 <= i < |picks| ensures r[i] == population[picks[i]] {
      assert rng(i) == picks[i];
      assert picks[i] % |population| == picks[i];
    }
    assert r == seq(|picks|, i requires 0 <= i < |picks| => population[picks[i]]);
  }
}
