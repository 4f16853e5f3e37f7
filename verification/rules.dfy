/** Conway's rule B3/S23, shared by both engines. */
module Rules {

  /** The next state of a cell with `neighbours` live neighbours: a live cell survives with
      2 or 3, a dead cell is born with exactly 3, every other cell is dead afterwards. */
  function Rule(alive: bool, neighbours: int): (next: bool)
    ensures next ==> 2 <= neighbours <= 3
    ensures neighbours == 3 ==> next
    ensures alive && neighbours == 2 ==> next
    ensures !alive && neighbours == 2 ==> !next
  {
    if alive then 2 <= neighbours <= 3 else neighbours == 3
  }
}
