/** PixelMEDIA.PixelCore.Helpers.RandomHelper: random alphanumeric strings
    drawn from a System.Random. */
module RandomHelper {
  import opened Wrappers
  import opened Int32

  /** The 62 characters a random string is made of. */
  const Alphanumeric: string := "ABCDEFGHIJKLMNOPQRSTUVWXYZabcdefghijklmnopqrstuvwxyz0123456789"

  /** A System.Random: `pick` and `step` stand for its generator, `drawn`
      records every value Next has returned. */
  class Random {
    var seed: nat
    const pick: (nat, nat) -> nat
    const step: nat -> nat
    var drawn: seq<nat>

    constructor (seed: nat, pick: (nat, nat) -> nat, step: nat -> nat)
      ensures this.seed == seed && this.pick == pick && this.step == step && drawn == []
    {
      this.seed := seed;
      this.pick := pick;
      this.step := step;
      drawn := [];
    }

    /** Next(maxValue): a value in [0, maxValue), recorded in drawn. */
    method Next(maxValue: nat) returns (r: nat)
      requires maxValue > 0
      modifies this
      ensures r < maxValue
      ensures drawn == old(drawn) + [r]
    {
      r := pick(seed, maxValue) % maxValue;
      seed := step(seed);
      drawn := drawn + [r];
    }
  }

  predicate InAlphabet(draws: seq<nat>) {
    forall i :: 0 <= i < |draws| ==> draws[i] < |Alphanumeric|
  }

  /** The characters a list of draws chooses. */
  function Chosen(draws: seq<nat>): (r: string)
    requires InAlphabet(draws)
    ensures |r| == |draws|
  {
    seq(|draws|, i requires 0 <= i < |draws| => Alphanumeric[draws[i]])
  }

  /** GetRandomAlphanumericString(size): fills a char buffer with one draw
      per character. A negative size cannot allocate the buffer:
      OverflowException. */
  method GetRandomAlphanumericString(size: Int32, random: Random) returns (r: Result<string>)
    modifies random
    ensures size < 0 ==> r == Err(Overflow) && random.drawn == old(random.drawn)
    ensures size >= 0 ==> && |random.drawn| == |old(random.drawn)| + size as int
                          && random.drawn[..|old(random.drawn)|] == old(random.drawn)
                          && InAlphabet(random.drawn[|old(random.drawn)|..])
                          && r == Ok(Chosen(random.drawn[|old(random.drawn)|..]))
                          && forall i :: 0 <= i < |r.value| ==> r.value[i] in Alphanumeric
  {
    if size < 0 {
      return Err(Overflow);
    }
    var buffer := new char[size];
    ghost var start := |random.drawn|;
    for i := 0 to size as int
      invariant |random.drawn| == start + i
      invariant random.drawn[..start] == old(random.drawn)
      invariant InAlphabet(random.drawn[start..])
      invariant buffer[..i] == Chosen(random.drawn[start..])
    {
      ghost var before := random.drawn;
      var k := random.Next(|Alphanumeric|);
      assert random.drawn[start..] == before[start..] + [k];
      assert random.drawn[..start] == before[..start];
      buffer[i] := Alphanumeric[k];
      assert buffer[..i + 1] == buffer[..i] + [Alphanumeric[k]];
    }
    assert buffer[..] == buffer[..size];
    RandomStringSpec(random.drawn[start..]);
    r := Ok(buffer[..]);
  }

  /** Every character of a random string is one of the 62, the i-th being
      the i-th draw's, and no draws give "". */
  lemma RandomStringSpec(draws: seq<nat>)
    requires InAlphabet(draws)
    ensures |Alphanumeric| == 62
    ensures forall i :: 0 <= i < |draws| ==> Chosen(draws)[i] in Alphanumeric && Chosen(draws)[i] == Alphanumeric[draws[i]]
    ensures draws == [] ==> Chosen(draws) == ""
  {
  }
}
