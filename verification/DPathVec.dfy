/** The array of furthest path ends that both searches write in place. */
module DPaths {
  import opened EditGraph

  /** What a cell holds: the abscissa of the end of the furthest reaching path on its diagonal, and the step
      of the search that wrote it.  Seeds are written by step -1. */
  datatype End = End(x: int, step: int)

  /** For each diagonal, the abscissa of the end of the furthest reaching path on it.  Diagonals may
      be negative, so they are shifted by `Offset()` before they index the underlying vector. */
  class DPathVec {
    const data: array<int>
    const aSize: nat
    const bSize: nat
    ghost var steps: map<int, int>    // the diagonals whose cells have been written, and by which step

    constructor (size1: nat, size2: nat)
      ensures Valid() && aSize == size1 && bSize == size2
      ensures fresh(data) && Ends() == map[]
    {
      data := new int[2 * (size1 + size2 + 1 + (size1 + size2)) + 1](_ => 0);
      aSize, bSize, steps := size1, size2, map[];
    }

    function MaxD(): nat { aSize + bSize }

    function Offset(): nat { MaxD() + Abs(aSize - bSize) }

    /** The vector is allocated by the constructor and never changes its size. */
    ghost predicate Valid() { data.Length == 4 * MaxD() + 3 }

    ghost predicate InBounds(index: int) { 0 <= index + Offset() < data.Length }

    /** The vector is long enough for every diagonal of a forward search, and of a reverse search,
        which is centred on the difference of the two sizes, and for the two seeds. */
    lemma DiagonalsInBounds(k: int)
      requires Valid()
      ensures Abs(k) <= MaxD() ==> InBounds(k) && InBounds(k + (aSize - bSize))
      ensures InBounds(1) && InBounds(aSize - bSize + 1)
    {
    }

    ghost function Cell(index: int): int
      requires InBounds(index)
      reads data
    {
      data[index + Offset()]
    }

    /** The cells that have been written, by diagonal. */
    ghost function Ends(): (ends: map<int, End>)
      reads this, data
    {
      map k | k in steps && InBounds(k) :: End(Cell(k), steps[k])
    }

    /** Only cells that have been written by the given step are read. */
    method At(index: int, ghost step: int) returns (x: int)
      requires index in Ends() && Ends()[index].step == step
      ensures x == Ends()[index].x
    {
      x := data[index + Offset()];
    }

    method Set(index: int, x: int, ghost step: int)
      requires InBounds(index)
      modifies data, `steps
      ensures Ends() == old(Ends())[index := End(x, step)]
    {
      data[index + Offset()] := x;
      steps := steps[index := step];
    }
  }
}
