/** The random number generator as an explicit oracle: a fixed stream of raw
    draws and a read position. Every draw consumes one value of the stream. */
module Random {

  class Rng {
    const stream: nat -> nat
    var pos: nat

    constructor (stream: nat -> nat)
      ensures this.stream == stream && pos == 0
    {
      this.stream := stream;
      pos := 0;
    }

    /** rng(): the next raw value. */
    method Raw() returns (x: nat)
      modifies this
      ensures x == stream(old(pos)) && pos == old(pos) + 1
    {
      x := stream(pos);
      pos := pos + 1;
    }

    /** A uniform_int_distribution over [lo, hi], reduced to the raw draw modulo
        the width of the range. */
    method Next(lo: int, hi: int) returns (x: int)
      requires lo <= hi
      modifies this
      ensures lo <= x <= hi
      ensures x == lo + stream(old(pos)) % (hi - lo + 1) && pos == old(pos) + 1
    {
      var raw := Raw();
      x := lo + raw % (hi - lo + 1);
    }

    /** std::shuffle as a Fisher-Yates pass driven by the stream. */
    method Shuffle<T>(xs: seq<T>) returns (ys: seq<T>)
      modifies this
      ensures |ys| == |xs| && multiset(ys) == multiset(xs)
    {
      ys := xs;
      var i := |ys|;
      while i > 1
        invariant 0 <= i <= |ys| && |ys| == |xs|
        invariant multiset(ys) == multiset(xs)
      {
        var j := Next(0, i - 1);
        ys := ys[i - 1 := ys[j]][j := ys[i - 1]];
        i := i - 1;
      }
    }
  }
}
