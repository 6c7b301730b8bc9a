/** The computed result of either mode: the floors visited and the distance travelled. */
module Paths {
  import opened FloorOps

  /**
   * A path under construction. Both builders start from the empty path and
   * fill in `floors` and `distance`; a finished path's distance is the
   * travel along its floors.
   */
  class Path {
    var floors: seq<int>
    var distance: int

    constructor ()
      ensures floors == [] && distance == 0
      ensures Valid()
    {
      floors := [];
      distance := 0;
    }

    /** The distance is the sum of the gaps between consecutive floors. */
    ghost predicate Valid()
      reads this
    {
      distance == PairwiseAbs(floors)
    }
  }
}
