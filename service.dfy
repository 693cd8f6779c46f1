/**
 * The game session: the world on show and the buffer the next generation
 * is written into, advanced one generation per request.
 */
module Service {
  import opened Wrappers
  import opened Rules
  import opened Seeding
  import opened Life

  class LifeService {
    var currentWorld: World
    var nextWorld: World

    /** Both worlds are grids of the same size. */
    ghost predicate Valid()
      reads this, currentWorld, nextWorld
    {
      && currentWorld.Valid() && nextWorld.Valid()
      && currentWorld.height == nextWorld.height && currentWorld.width == nextWorld.width
    }

    constructor(currentWorld: World, nextWorld: World)
      ensures this.currentWorld == currentWorld && this.nextWorld == nextWorld
    {
      this.currentWorld := currentWorld;
      this.nextWorld := nextWorld;
    }

    /**
     * NewState: writes the next generation of currentWorld into nextWorld
     * and then makes currentWorld refer to nextWorld, which it returns.
     * The two fields then name one world, and so they do after every later
     * call: only a call made while they are distinct computes the next
     * generation; one made after that updates the single world in place.
     */
    method NewState() returns (w: World)
      requires Valid()
      modifies this, nextWorld`cells
      ensures w == currentWorld && currentWorld == nextWorld && nextWorld == old(nextWorld)
      ensures Valid()
      ensures w.height == old(currentWorld.height) && w.width == old(currentWorld.width)
      ensures old(currentWorld) != old(nextWorld) ==>
                old(currentWorld).cells == old(currentWorld.cells)
                && w.cells == Step(old(currentWorld.cells), w.height, w.width)
      ensures old(currentWorld) == old(nextWorld) ==>
                w.cells == InPlaceStep(old(currentWorld.cells), w.height, w.width)
    {
      NextState(currentWorld, nextWorld);
      currentWorld := nextWorld;
      w := currentWorld;
    }

    /**
     * NewState with double buffering as intended: after writing the next
     * generation into nextWorld the two worlds swap, so they stay distinct
     * and every call computes the next generation.
     */
    method NewStateSwapping() returns (w: World)
      requires Valid() && currentWorld != nextWorld
      modifies this, nextWorld`cells
      ensures currentWorld == old(nextWorld) && nextWorld == old(currentWorld) && w == currentWorld
      ensures Valid() && currentWorld != nextWorld
      ensures w.height == old(currentWorld.height) && w.width == old(currentWorld.width)
      ensures nextWorld.cells == old(currentWorld.cells)
      ensures w.cells == Step(old(currentWorld.cells), w.height, w.width)
    {
      NextState(currentWorld, nextWorld);
      currentWorld, nextWorld := nextWorld, currentWorld;
      w := currentWorld;
    }
  }

  /**
   * New: a session whose current world is a height x width grid seeded by
   * RandInit(fill), the picks being its random coordinates, and whose next
   * world is a separate all-dead grid of the same size. The error it
   * returns is always nil.
   */
  method New(height: int, width: int, fill: int, picks: seq<Pick>) returns (ls: LifeService, err: Option<string>)
    requires height >= 0 && width >= 0 && 0 <= fill <= 100
    requires |picks| == NumAlive(fill, width, height)
    requires forall i :: 0 <= i < |picks| ==> Drawn(picks[i], height, width)
    requires width == height || |picks| == 0
    ensures err == None
    ensures fresh(ls) && fresh(ls.currentWorld) && fresh(ls.nextWorld) && ls.currentWorld != ls.nextWorld
    ensures ls.Valid()
    ensures ls.currentWorld.height == height && ls.currentWorld.width == width
    ensures forall i :: 0 <= i < |picks| ==> InGrid(picks[i], height, width)
    ensures ls.currentWorld.cells == Seeded(Dead(height, width), height, width, fill, picks)
    ensures ls.nextWorld.cells == Dead(height, width)
  {
    var currentWorld := new World(height, width);
    currentWorld.RandInit(fill, picks);
    var newWorld := new World(height, width);
    ls := new LifeService(currentWorld, newWorld);
    err := None;
  }
}
