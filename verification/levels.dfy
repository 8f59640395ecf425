/** The level generator of the skip list (getRandomLevel). */
module Levels {

  /** Highest level a node can be drawn at; the head is linked at levels 0..MAX_LEVEL. */
  const MAX_LEVEL := 32

  /**
   * getRandomLevel, with java.util.Random replaced by the stream of its draws:
   * flips[d] is true when the d-th call of nextInt(2) returned 1. The level starts
   * at 1 and goes up by one for every 1 drawn, until a 0 is drawn or MAX_LEVEL is
   * reached. MAX_LEVEL - 1 draws are enough for any run of the loop.
   */
  method RandomLevel(flips: seq<bool>) returns (level: int)
    requires |flips| >= MAX_LEVEL - 1
    ensures 1 <= level <= MAX_LEVEL
    ensures forall d :: 0 <= d < level - 1 ==> flips[d]
    ensures level < MAX_LEVEL ==> !flips[level - 1]
  {
    level := 1;
    var d := 0;  // draws taken so far
    while flips[d]
      invariant 1 <= level < MAX_LEVEL
      invariant d == level - 1
      invariant forall e :: 0 <= e < d ==> flips[e]
      decreases MAX_LEVEL - level
    {
      level := level + 1;
      if level == MAX_LEVEL {
        break;
      }
      d := d + 1;
    }
  }
}
