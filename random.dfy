/**
 * The engine's only source of randomness, Math.random(), as an explicit
 * input: a finite sequence of raw draws consumed one per call.
 */
module Randomness {
  class Random {
    /** The draws not consumed yet. */
    var draws: seq<nat>

    constructor (draws: seq<nat>)
      ensures this.draws == draws
    {
      this.draws := draws;
    }

    /**
     * Math.floor(Math.random() * n): some integer in [0, n), taken from the
     * next draw; once the draws have run out it is 0.
     */
    method Below(n: nat) returns (k: nat)
      requires n > 0
      modifies this
      ensures k < n
      ensures old(draws) == [] ==> k == 0 && draws == []
      ensures old(draws) != [] ==> k == old(draws)[0] % n && draws == old(draws)[1..]
    {
      if draws == [] {
        k := 0;
      } else {
        k := draws[0] % n;
        draws := draws[1..];
      }
    }
  }
}
