/**
 * The legacy global score of `state.rs`: one `i32` behind a mutex,
 * initialised to 0. The process-wide static becomes an object here; the
 * mutex, and the recovery of a poisoned lock, are not modelled.
 */
module State {
  import opened Ints

  class ScoreCell {
    var score: i32

    /** The static's initialiser. */
    constructor ()
      ensures score == 0
    {
      score := 0;
    }

    /** `set_score`: overwrite the stored score. */
    method SetScore(ns: i32)
      modifies this
      ensures score == ns
    {
      score := ns;
    }

    /** `get_score`: read the stored score without changing it. */
    method GetScore() returns (r: i32)
      ensures r == score
    {
      r := score;
    }

    /**
     * `add_score`: add in place and return the new score. The `i32` addition
     * panics on overflow, so callers must keep the sum in range.
     */
    method AddScore(add: i32) returns (r: i32)
      requires IsI32(score + add)
      modifies this
      ensures score == old(score) + add
      ensures r == score
    {
      score := score + add;
      r := score;
    }

    /**
     * `sub_score`: `add_score(!sub)`. The bitwise complement is `-sub - 1`,
     * so the score drops by one more than `sub`.
     */
    method SubScore(sub: i32) returns (r: i32)
      requires IsI32(score - sub - 1)
      modifies this
      ensures score == old(score) - sub - 1
      ensures r == score
    {
      r := AddScore(BitNot(sub));
    }
  }
}
