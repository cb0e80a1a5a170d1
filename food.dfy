/** Apple placement (Apple.randomize_position): the candidate list is every
    cell of ALL_CELLS that is not in the shared START_SNAKE_POSITION list,
    and `choice` takes one of them. The random draw is a parameter `roll`;
    any candidate can be drawn. */
module Food {
  import opened Grid
  import opened SeqFacts

  /** The comprehension `[x for x in cells if x not in excluded]`, order kept. */
  function Candidates(cells: seq<Cell>, excluded: seq<Cell>): (r: seq<Cell>)
    ensures forall c :: c in r <==> c in cells && c !in excluded
    ensures |r| <= |cells|
  {
    if cells == [] then []
    else (if cells[0] in excluded then [] else [cells[0]]) + Candidates(cells[1..], excluded)
  }

  /** `choice(candidates)`: the draw `roll` selects an index. */
  function Pick(candidates: seq<Cell>, roll: nat): (c: Cell)
    requires candidates != []
    ensures c in candidates
  {
    candidates[roll % |candidates|]
  }

  /** Every candidate is a possible outcome of the draw. */
  lemma EveryCandidateCanBePicked(candidates: seq<Cell>, c: Cell)
    requires c in candidates
    ensures exists roll: nat :: Pick(candidates, roll) == c
  {
    var i :| 0 <= i < |candidates| && candidates[i] == c;
    assert Pick(candidates, i) == c;
  }

  /** `choice` fails on an empty list; that cannot happen while the excluded
      list is shorter than the grid. */
  lemma CandidatesNonEmpty(excluded: seq<Cell>)
    requires |excluded| < |AllCells()|
    ensures Candidates(AllCells(), excluded) != []
  {
    if Candidates(AllCells(), excluded) == [] {
      forall k, m | 0 <= k < m < |AllCells()| ensures AllCells()[k] != AllCells()[m] {
        AllCellsDistinct(k, m);
      }
      CoveredIsNoLonger(AllCells(), excluded);
      assert false;
    }
  }

  /** The apple lands on a grid cell outside the excluded list. */
  lemma PickedCellIsFree(excluded: seq<Cell>, roll: nat)
    requires Candidates(AllCells(), excluded) != []
    ensures InGrid(Pick(Candidates(AllCells(), excluded), roll))
    ensures Pick(Candidates(AllCells(), excluded), roll) !in excluded
  {
    AllCellsAreTheGrid(Pick(Candidates(AllCells(), excluded), roll));
  }
}
