/** Claims on the shared sheet of fabric: placing every claim's cells into a
    sparse map from cell to the ids covering it, then the two questions asked
    of that map — how many cells are claimed twice or more, and which claims
    touch no shared cell. */
module Fabric {

  /** The side against which rows are flipped: claim row `k` (counted from
      `y`) lands on map row `Side - y - k - 1`. */
  const Side := 1000

  datatype Claim = Claim(id: int, x: int, y: int, width: int, height: int)

  /** A map key: column, then flipped row. */
  type Cell = (int, int)

  /** The flipped rows a claim covers are `Bottom(c) .. Top(c) - 1`. */
  function Top(c: Claim): int { Side - c.y }

  function Bottom(c: Claim): int { Top(c) - c.height }

  /** The cells a claim's loops visit. Empty when the width or height is
      zero or negative, since then one of the ranges is empty. */
  predicate Covers(c: Claim, cell: Cell) {
    c.x <= cell.0 < c.x + c.width && Bottom(c) <= cell.1 < Top(c)
  }

  /** The cells of columns `xlo .. xhi - 1` and rows `lo .. hi - 1`. */
  ghost function Block(xlo: int, xhi: int, lo: int, hi: int): set<Cell>
  {
    set i, j | xlo <= i < xhi && lo <= j < hi :: (i, j)
  }

  /** The cells a claim covers, as a set. */
  ghost function Cells(c: Claim): (s: set<Cell>)
    ensures forall cell :: cell in s <==> Covers(c, cell)
  {
    Block(c.x, c.x + c.width, Bottom(c), Top(c))
  }

  /** Every cell covered by some claim. */
  ghost function Footprint(claims: seq<Claim>): set<Cell>
  {
    if claims == [] then {} else Footprint(claims[..|claims| - 1]) + Cells(claims[|claims| - 1])
  }

  /** The ids of the claims covering `cell`, in the order the claims come. */
  function IdsAt(claims: seq<Claim>, cell: Cell): seq<int>
  {
    if claims == [] then []
    else
      var last := claims[|claims| - 1];
      IdsAt(claims[..|claims| - 1], cell) + (if Covers(last, cell) then [last.id] else [])
  }

  /** The occupancy map the placement must produce: a key for exactly the
      covered cells, holding the ids covering it in input order. */
  ghost function Placement(claims: seq<Claim>): map<Cell, seq<int>>
  {
    map cell | cell in Footprint(claims) :: IdsAt(claims, cell)
  }

  /** A cell is in the footprint exactly when some claim covers it, that is
      when its id list is not empty. */
  lemma {:induction false} FootprintCovered(claims: seq<Claim>, cell: Cell)
    ensures cell in Footprint(claims) <==> exists k :: 0 <= k < |claims| && Covers(claims[k], cell)
    ensures cell in Footprint(claims) <==> IdsAt(claims, cell) != []
    decreases |claims|
  {
    if claims != [] {
      var init := claims[..|claims| - 1];
      FootprintCovered(init, cell);
      if cell in Footprint(init) {
        var k :| 0 <= k < |init| && Covers(init[k], cell);
        assert claims[k] == init[k];
      }
      if exists k :: 0 <= k < |claims| && Covers(claims[k], cell) {
        var k :| 0 <= k < |claims| && Covers(claims[k], cell);
        if k < |init| {
          assert init[k] == claims[k];
        }
      }
    }
  }

  /** The cells of the claim being placed that the loops have already
      visited, when they stand at column `i`, row `j`. */
  predicate Visited(c: Claim, i: int, j: int, cell: Cell) {
    Covers(c, cell) && (cell.0 < i || (cell.0 == i && cell.1 < j))
  }

  /** The map holds exactly the ids of the claims `done`. */
  ghost predicate Placed(fabric: map<Cell, seq<int>>, done: seq<Claim>)
  {
    forall cell ::
      && (cell in fabric <==> IdsAt(done, cell) != [])
      && (cell in fabric ==> fabric[cell] == IdsAt(done, cell))
  }

  /** The map holds the ids of the claims `done` and, in the cells the loops
      have visited, the id of claim `c` after them. */
  ghost predicate PartlyPlaced(fabric: map<Cell, seq<int>>, done: seq<Claim>, c: Claim, i: int, j: int)
  {
    forall cell ::
      && (cell in fabric <==> IdsAt(done, cell) != [] || Visited(c, i, j, cell))
      && (cell in fabric ==> fabric[cell] == IdsAt(done, cell) + (if Visited(c, i, j, cell) then [c.id] else []))
  }

  /** Appending the id at the current cell moves the loops one row on. */
  lemma PlaceStep(fabric: map<Cell, seq<int>>, done: seq<Claim>, c: Claim, i: int, j: int)
    requires PartlyPlaced(fabric, done, c, i, j)
    requires c.x <= i < c.x + c.width && Bottom(c) <= j < Top(c)
    ensures PartlyPlaced(fabric[(i, j) := (if (i, j) in fabric then fabric[(i, j)] else []) + [c.id]], done, c, i, j + 1)
  {
  }

  /** Once the rows of a column are done, the next column starts. */
  lemma ColumnDone(fabric: map<Cell, seq<int>>, done: seq<Claim>, c: Claim, i: int, j: int)
    requires PartlyPlaced(fabric, done, c, i, j)
    requires j >= Top(c)
    ensures PartlyPlaced(fabric, done, c, i + 1, Bottom(c))
  {
    forall cell ensures Visited(c, i, j, cell) == Visited(c, i + 1, Bottom(c), cell) {}
  }

  /** Once the columns of a claim are done, the claim is placed. */
  lemma ClaimDone(fabric: map<Cell, seq<int>>, done: seq<Claim>, c: Claim, i: int)
    requires PartlyPlaced(fabric, done, c, i, Bottom(c))
    requires i >= c.x + c.width
    ensures Placed(fabric, done + [c])
  {
    assert (done + [c])[..|done|] == done;
    forall cell ensures Visited(c, i, Bottom(c), cell) == Covers(c, cell) {}
  }

  /** `place_claims`: for each claim, for each column, for each flipped row,
      append the claim's id to that cell's list, creating the list if the
      cell has none yet. */
  method PlaceClaims(claims: seq<Claim>) returns (fabric: map<Cell, seq<int>>)
    ensures fabric == Placement(claims)
  {
    fabric := map[];
    for n := 0 to |claims|
      invariant Placed(fabric, claims[..n])
    {
      var c := claims[n];
      ghost var done := claims[..n];
      forall cell ensures !Visited(c, c.x, Bottom(c), cell) {}
      assert PartlyPlaced(fabric, done, c, c.x, Bottom(c));
      var i := c.x;
      while i < c.x + c.width
        invariant c.x <= i
        invariant PartlyPlaced(fabric, done, c, i, Bottom(c))
      {
        var top := Side - c.y;
        var bottom := top - c.height;
        var j := bottom;
        while j < top
          invariant bottom <= j
          invariant PartlyPlaced(fabric, done, c, i, j)
        {
          var loc := (i, j);
          var entry := if loc in fabric then fabric[loc] else [];
          PlaceStep(fabric, done, c, i, j);
          fabric := fabric[loc := entry + [c.id]];
          j := j + 1;
        }
        ColumnDone(fabric, done, c, i, j);
        i := i + 1;
      }
      ClaimDone(fabric, done, c, i);
      assert claims[..n + 1] == done + [c];
    }
    assert claims[..|claims|] == claims;
    forall cell | true
      ensures cell in fabric <==> cell in Placement(claims)
      ensures cell in fabric ==> fabric[cell] == Placement(claims)[cell]
    {
      FootprintCovered(claims, cell);
    }
  }

  /** The cells claimed by two or more claims: the keys whose list holds at
      least two ids. */
  ghost function OverlapCells(fabric: map<Cell, seq<int>>): set<Cell>
  {
    set cell | cell in fabric && |fabric[cell]| >= 2
  }

  /** The overlap-count loop of `main`: one for every key whose list holds
      two or more ids, visiting the keys in any order. */
  method CountOverlaps(fabric: map<Cell, seq<int>>) returns (count: nat)
    ensures count == |OverlapCells(fabric)|
  {
    count := 0;
    var todo := fabric.Keys;
    while todo != {}
      invariant todo <= fabric.Keys
      invariant count == |set cell | cell in fabric.Keys - todo && |fabric[cell]| >= 2|
      decreases todo
    {
      var k :| k in todo;
      ghost var before := set cell | cell in fabric.Keys - todo && |fabric[cell]| >= 2;
      ghost var after := set cell | cell in fabric.Keys - (todo - {k}) && |fabric[cell]| >= 2;
      if |fabric[k]| >= 2 {
        assert after == before + {k};
        count := count + 1;
      } else {
        assert after == before;
      }
      todo := todo - {k};
    }
    assert (set cell | cell in fabric.Keys - {} && |fabric[cell]| >= 2) == OverlapCells(fabric);
  }

  /** The ids found alone in some cell. */
  ghost function SoleIds(fabric: map<Cell, seq<int>>): set<int>
  {
    set cell | cell in fabric && |fabric[cell]| == 1 :: fabric[cell][0]
  }

  /** The ids found in some cell together with another id. */
  ghost function SharedIds(fabric: map<Cell, seq<int>>): set<int>
  {
    set cell, p | cell in fabric && |fabric[cell]| > 1 && 0 <= p < |fabric[cell]| :: fabric[cell][p]
  }

  /** The candidate loops of `main`: first every id that stands alone in a
      cell is inserted, then every id of every cell holding more than one id
      is removed. Keys are visited in any order; since all removals follow
      all insertions, the result does not depend on that order. */
  method IsolatedCandidates(fabric: map<Cell, seq<int>>) returns (candidates: set<int>)
    ensures candidates == SoleIds(fabric) - SharedIds(fabric)
  {
    candidates := {};
    var todo := fabric.Keys;
    while todo != {}
      invariant todo <= fabric.Keys
      invariant candidates == set cell | cell in fabric.Keys - todo && |fabric[cell]| == 1 :: fabric[cell][0]
      decreases todo
    {
      var k :| k in todo;
      ghost var after := set cell | cell in fabric.Keys - (todo - {k}) && |fabric[cell]| == 1 :: fabric[cell][0];
      if |fabric[k]| == 1 {
        assert after == candidates + {fabric[k][0]};
        candidates := candidates + {fabric[k][0]};
      } else {
        assert after == candidates;
      }
      todo := todo - {k};
    }
    assert candidates == SoleIds(fabric);

    todo := fabric.Keys;
    while todo != {}
      invariant todo <= fabric.Keys
      invariant candidates == SoleIds(fabric) -
        set cell, p | cell in fabric.Keys - todo && |fabric[cell]| > 1 && 0 <= p < |fabric[cell]| :: fabric[cell][p]
      decreases todo
    {
      var k :| k in todo;
      ghost var removed := set cell, p | cell in fabric.Keys - todo && |fabric[cell]| > 1 && 0 <= p < |fabric[cell]| :: fabric[cell][p];
      var entry := fabric[k];
      if |entry| > 1 {
        for q := 0 to |entry|
          invariant candidates == SoleIds(fabric) - removed - set p | 0 <= p < q :: entry[p]
        {
          candidates := candidates - {entry[q]};
        }
        assert removed + (set p | 0 <= p < |entry| :: entry[p]) ==
          set cell, p | cell in fabric.Keys - (todo - {k}) && |fabric[cell]| > 1 && 0 <= p < |fabric[cell]| :: fabric[cell][p];
      } else {
        assert removed ==
          set cell, p | cell in fabric.Keys - (todo - {k}) && |fabric[cell]| > 1 && 0 <= p < |fabric[cell]| :: fabric[cell][p];
      }
      todo := todo - {k};
    }
    assert fabric.Keys - {} == fabric.Keys;
  }
}
