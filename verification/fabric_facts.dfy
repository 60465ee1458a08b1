/** What the occupancy map means: which ids a cell holds and in which order,
    how much each claim adds, which cells count as overlaps and which claims
    end up as candidates. */
module FabricFacts {
  import opened Fabric

  /** No two claims share an id. The code does not check this; the claim
      input is expected to provide it. */
  predicate UniqueIds(claims: seq<Claim>)
  {
    forall k1, k2 :: 0 <= k1 < |claims| && 0 <= k2 < |claims| && claims[k1].id == claims[k2].id ==> k1 == k2
  }

  /** A claim whose width and height are both positive covers at least one cell. */
  predicate HasArea(c: Claim) { c.width > 0 && c.height > 0 }

  /** Claim row `r` (counted from the top edge `0`) of column `i` is stored at
      row `Side - r - 1`: the flip maps the rectangle `[x, x+width) × [y, y+height)`
      onto exactly the cells the claim covers. */
  lemma FlipIsRectangle(c: Claim, i: int, r: int)
    ensures Covers(c, (i, Side - r - 1)) <==> c.x <= i < c.x + c.width && c.y <= r < c.y + c.height
  {
  }

  /** The occupancy map has a key for exactly the cells some claim covers,
      and each key holds the ids of the covering claims, never an empty list. */
  lemma PlacementKeys(claims: seq<Claim>, cell: Cell)
    ensures cell in Placement(claims) <==> exists k :: 0 <= k < |claims| && Covers(claims[k], cell)
    ensures cell in Placement(claims) ==> Placement(claims)[cell] == IdsAt(claims, cell) != []
  {
    FootprintCovered(claims, cell);
  }

  /** Lists follow input order: the ids of a later batch of claims come after
      those of an earlier batch. */
  lemma {:induction false} IdsAtAppend(a: seq<Claim>, b: seq<Claim>, cell: Cell)
    ensures IdsAt(a + b, cell) == IdsAt(a, cell) + IdsAt(b, cell)
    decreases |b|
  {
    if b == [] {
      assert a + b == a;
    } else {
      var b' := b[..|b| - 1];
      IdsAtAppend(a, b', cell);
      assert (a + b)[..|a + b| - 1] == a + b';
      assert (a + b)[|a + b| - 1] == b[|b| - 1];
    }
  }

  /** An id is in a cell's list exactly when a claim with that id covers the cell. */
  lemma {:induction false} IdsAtMember(claims: seq<Claim>, cell: Cell, id: int)
    ensures id in IdsAt(claims, cell) <==> exists k :: 0 <= k < |claims| && claims[k].id == id && Covers(claims[k], cell)
    decreases |claims|
  {
    if claims != [] {
      var init := claims[..|claims| - 1];
      IdsAtMember(init, cell, id);
      if id in IdsAt(init, cell) {
        var k :| 0 <= k < |init| && init[k].id == id && Covers(init[k], cell);
        assert claims[k] == init[k];
      }
      if exists k :: 0 <= k < |claims| && claims[k].id == id && Covers(claims[k], cell) {
        var k :| 0 <= k < |claims| && claims[k].id == id && Covers(claims[k], cell);
        if k < |init| {
          assert init[k] == claims[k];
        }
      }
    }
  }

  /** With unique ids, each claim's id appears exactly once in the list of
      every cell it covers and nowhere else. */
  lemma {:induction false} IdsAtOnce(claims: seq<Claim>, k: int, cell: Cell)
    requires UniqueIds(claims) && 0 <= k < |claims|
    ensures multiset(IdsAt(claims, cell))[claims[k].id] == if Covers(claims[k], cell) then 1 else 0
    decreases |claims|
  {
    var init := claims[..|claims| - 1];
    var last := claims[|claims| - 1];
    var id := claims[k].id;
    if k == |claims| - 1 {
      IdsAtMember(init, cell, id);
      forall k' | 0 <= k' < |init| ensures init[k'].id != id {
        assert init[k'] == claims[k'];
      }
    } else {
      assert UniqueIds(init) by {
        forall k1, k2 | 0 <= k1 < |init| && 0 <= k2 < |init| && init[k1].id == init[k2].id
          ensures k1 == k2
        {
          assert claims[k1] == init[k1] && claims[k2] == init[k2];
        }
      }
      IdsAtOnce(init, k, cell);
      assert init[k] == claims[k];
      assert last.id != id;
    }
  }

  /** Within a cell's list, the id of an earlier claim stands before the id
      of a later one. */
  lemma IdsAtOrder(claims: seq<Claim>, k1: int, k2: int, cell: Cell)
    requires 0 <= k1 < k2 < |claims|
    requires Covers(claims[k1], cell) && Covers(claims[k2], cell)
    ensures exists p1, p2 ::
      (0 <= p1 < p2 < |IdsAt(claims, cell)| && IdsAt(claims, cell)[p1] == claims[k1].id && IdsAt(claims, cell)[p2] == claims[k2].id)
  {
    var front, back := claims[..k2], claims[k2..];
    assert claims == front + back;
    IdsAtAppend(front, back, cell);
    IdsAtMember(front, cell, claims[k1].id);
    assert front[k1] == claims[k1];
    var back1, rest := back[..1], back[1..];
    assert back == back1 + rest;
    IdsAtAppend(back1, rest, cell);
    assert back1[..0] == [];
    assert IdsAt(back1, cell) == [claims[k2].id];
    var ids := IdsAt(claims, cell);
    var p1 :| 0 <= p1 < |IdsAt(front, cell)| && IdsAt(front, cell)[p1] == claims[k1].id;
    var p2 := |IdsAt(front, cell)|;
    assert ids[p1] == claims[k1].id && ids[p2] == claims[k2].id;
  }

  /** A cell's list has two or more ids exactly when two different claims
      cover it. */
  lemma {:induction false} SharedMeansTwo(claims: seq<Claim>, cell: Cell)
    ensures |IdsAt(claims, cell)| >= 2 <==>
      exists k1, k2 :: 0 <= k1 < k2 < |claims| && Covers(claims[k1], cell) && Covers(claims[k2], cell)
    decreases |claims|
  {
    if claims != [] {
      var init := claims[..|claims| - 1];
      var n := |claims| - 1;
      SharedMeansTwo(init, cell);
      FootprintCovered(init, cell);
      if |IdsAt(init, cell)| >= 2 {
        var k1, k2 :| 0 <= k1 < k2 < |init| && Covers(init[k1], cell) && Covers(init[k2], cell);
        assert claims[k1] == init[k1] && claims[k2] == init[k2];
      } else if |IdsAt(init, cell)| == 1 && Covers(claims[n], cell) {
        var k :| 0 <= k < |init| && Covers(init[k], cell);
        assert claims[k] == init[k];
      }
      if exists k1, k2 :: 0 <= k1 < k2 < |claims| && Covers(claims[k1], cell) && Covers(claims[k2], cell) {
        var k1, k2 :| 0 <= k1 < k2 < |claims| && Covers(claims[k1], cell) && Covers(claims[k2], cell);
        assert init[k1] == claims[k1];
        if k2 < n {
          assert init[k2] == claims[k2];
        }
      }
    }
  }

  /** The overlap cells of the occupancy map are exactly the cells covered by
      two different claims. */
  lemma OverlapMeaning(claims: seq<Claim>, cell: Cell)
    ensures cell in OverlapCells(Placement(claims)) <==>
      exists k1, k2 :: 0 <= k1 < k2 < |claims| && Covers(claims[k1], cell) && Covers(claims[k2], cell)
  {
    FootprintCovered(claims, cell);
    SharedMeansTwo(claims, cell);
  }

  /** Adding a claim never removes an overlap cell, so the count never drops. */
  lemma OverlapMonotone(claims: seq<Claim>, c: Claim)
    ensures OverlapCells(Placement(claims)) <= OverlapCells(Placement(claims + [c]))
    ensures |OverlapCells(Placement(claims))| <= |OverlapCells(Placement(claims + [c]))|
  {
    forall cell | cell in OverlapCells(Placement(claims))
      ensures cell in OverlapCells(Placement(claims + [c]))
    {
      FootprintCovered(claims, cell);
      FootprintCovered(claims + [c], cell);
      IdsAtAppend(claims, [c], cell);
    }
    var before, after := OverlapCells(Placement(claims)), OverlapCells(Placement(claims + [c]));
    assert after == before + (after - before);
  }

  /** Claims whose rectangles pairwise share no cell leave no overlap. */
  lemma DisjointNoOverlap(claims: seq<Claim>)
    requires forall k1, k2, cell :: 0 <= k1 < k2 < |claims| && Covers(claims[k1], cell) ==> !Covers(claims[k2], cell)
    ensures OverlapCells(Placement(claims)) == {}
  {
    forall cell | cell in OverlapCells(Placement(claims)) ensures false {
      OverlapMeaning(claims, cell);
    }
  }

  // ---- what one claim adds ----

  lemma {:induction false} ColumnSize(i: int, lo: int, hi: int)
    requires lo <= hi
    ensures |Block(i, i + 1, lo, hi)| == hi - lo
    decreases hi - lo
  {
    if lo == hi {
      assert Block(i, i + 1, lo, hi) == {};
    } else {
      ColumnSize(i, lo, hi - 1);
      assert Block(i, i + 1, lo, hi) == Block(i, i + 1, lo, hi - 1) + {(i, hi - 1)};
    }
  }

  lemma {:induction false} BlockSize(xlo: int, xhi: int, lo: int, hi: int)
    requires xlo <= xhi && lo <= hi
    ensures |Block(xlo, xhi, lo, hi)| == (xhi - xlo) * (hi - lo)
    decreases xhi - xlo
  {
    if xlo == xhi {
      assert Block(xlo, xhi, lo, hi) == {};
    } else {
      BlockSize(xlo, xhi - 1, lo, hi);
      ColumnSize(xhi - 1, lo, hi);
      assert Block(xlo, xhi, lo, hi) == Block(xlo, xhi - 1, lo, hi) + Block(xhi - 1, xhi, lo, hi);
      assert Block(xlo, xhi - 1, lo, hi) !! Block(xhi - 1, xhi, lo, hi);
      assert (xhi - xlo) * (hi - lo) == (xhi - 1 - xlo) * (hi - lo) + (hi - lo);
    }
  }

  /** A claim covers width × height cells, or none when a side is not positive. */
  lemma ClaimArea(c: Claim)
    ensures |Cells(c)| == if HasArea(c) then c.width * c.height else 0
  {
    if HasArea(c) {
      BlockSize(c.x, c.x + c.width, Bottom(c), Top(c));
    } else {
      assert Cells(c) == {};
    }
  }

  /** The slots of all lists, one per stored id: a cell and a position in its
      list. Their number is the total of the list lengths. */
  ghost function Entries(fabric: map<Cell, seq<int>>): set<(Cell, int)>
  {
    set cell, p | cell in fabric && 0 <= p < |fabric[cell]| :: (cell, p)
  }

  lemma InEntries(fabric: map<Cell, seq<int>>, cell: Cell, p: int)
    ensures (cell, p) in Entries(fabric) <==> cell in fabric && 0 <= p < |fabric[cell]|
  {
  }

  /** The slots a claim adds: in each cell it covers, the one just past the
      end of the list built from the claims before it. */
  ghost function NewSlots(claims: seq<Claim>, cells: set<Cell>): set<(Cell, int)>
  {
    set cell | cell in cells :: (cell, |IdsAt(claims, cell)|)
  }

  /** One new slot per cell. */
  lemma {:induction false} NewSlotsSize(claims: seq<Claim>, cells: set<Cell>)
    ensures |NewSlots(claims, cells)| == |cells|
    decreases |cells|
  {
    if cells != {} {
      var x :| x in cells;
      NewSlotsSize(claims, cells - {x});
      assert NewSlots(claims, cells) == NewSlots(claims, cells - {x}) + {(x, |IdsAt(claims, x)|)};
    }
  }

  /** Placing one more claim appends its id to the list of each cell it
      covers, creating the lists that did not exist, and leaves every other
      list as it was. */
  lemma PlaceOne(claims: seq<Claim>, c: Claim, cell: Cell)
    ensures IdsAt(claims + [c], cell) == IdsAt(claims, cell) + (if Covers(c, cell) then [c.id] else [])
    ensures cell in Placement(claims + [c]) <==> cell in Placement(claims) || Covers(c, cell)
  {
    assert (claims + [c])[..|claims|] == claims;
    FootprintCovered(claims, cell);
    FootprintCovered(claims + [c], cell);
  }

  /** The new slots are one per covered cell, at the end of its list. */
  lemma EntriesGrow(claims: seq<Claim>, c: Claim)
    ensures Entries(Placement(claims + [c])) ==
      Entries(Placement(claims)) + NewSlots(claims, Cells(c))
    ensures Entries(Placement(claims)) !! NewSlots(claims, Cells(c))
  {
    var old', new' := Placement(claims), Placement(claims + [c]);
    var added := NewSlots(claims, Cells(c));
    forall e | e in Entries(new') ensures e in Entries(old') + added {
      var (cell, p) := e;
      InEntries(new', cell, p);
      InEntries(old', cell, p);
      PlaceOne(claims, c, cell);
      FootprintCovered(claims, cell);
      if p >= |IdsAt(claims, cell)| {
        assert Covers(c, cell) && p == |IdsAt(claims, cell)|;
        assert e in added;
      }
    }
    forall e | e in Entries(old') + added ensures e in Entries(new') {
      InEntries(new', e.0, e.1);
      InEntries(old', e.0, e.1);
      PlaceOne(claims, c, e.0);
    }
    forall e | e in Entries(old') ensures e !in added {
      InEntries(old', e.0, e.1);
    }
  }

  /** Placing one more claim makes the total of the list lengths grow by
      exactly the claim's area, and not at all for a claim with a side that
      is not positive. */
  lemma PlaceOneMore(claims: seq<Claim>, c: Claim)
    ensures |Entries(Placement(claims + [c]))| ==
      |Entries(Placement(claims))| + if HasArea(c) then c.width * c.height else 0
  {
    EntriesGrow(claims, c);
    NewSlotsSize(claims, Cells(c));
    ClaimArea(c);
  }

  // ---- the candidate set ----

  /** The direct reading of "isolated": every cell the claim covers holds
      exactly one id. */
  ghost predicate Isolated(claims: seq<Claim>, c: Claim)
  {
    forall cell :: Covers(c, cell) ==> |IdsAt(claims, cell)| == 1
  }

  /** The candidates of the two-pass loops are ids of claims that cover at
      least one cell. */
  lemma CandidateIsClaim(claims: seq<Claim>, id: int)
    ensures id in SoleIds(Placement(claims)) ==>
      exists k :: 0 <= k < |claims| && claims[k].id == id && HasArea(claims[k])
  {
    var fabric := Placement(claims);
    if id in SoleIds(fabric) {
      var cell :| cell in fabric && |fabric[cell]| == 1 && fabric[cell][0] == id;
      IdsAtMember(claims, cell, id);
    }
  }

  /** For claims with unique ids, a claim with positive area is a candidate
      exactly when every cell it covers holds only its own id. */
  lemma CandidateIffIsolated(claims: seq<Claim>, k: int)
    requires UniqueIds(claims) && 0 <= k < |claims| && HasArea(claims[k])
    ensures claims[k].id in SoleIds(Placement(claims)) - SharedIds(Placement(claims)) <==> Isolated(claims, claims[k])
  {
    var fabric := Placement(claims);
    var c := claims[k];
    if Isolated(claims, c) {
      var corner := (c.x, Bottom(c));
      assert Covers(c, corner);
      FootprintCovered(claims, corner);
      IdsAtOnce(claims, k, corner);
      assert fabric[corner] == [c.id];
      assert c.id in SoleIds(fabric);
      forall cell, p | cell in fabric && |fabric[cell]| > 1 && 0 <= p < |fabric[cell]|
        ensures fabric[cell][p] != c.id
      {
        IdsAtMember(claims, cell, fabric[cell][p]);
      }
    }
    if c.id in SoleIds(fabric) - SharedIds(fabric) {
      forall cell | Covers(c, cell) ensures |IdsAt(claims, cell)| == 1 {
        FootprintCovered(claims, cell);
        IdsAtMember(claims, cell, c.id);
        var p :| 0 <= p < |fabric[cell]| && fabric[cell][p] == c.id;
        assert |fabric[cell]| > 1 ==> c.id in SharedIds(fabric);
      }
    }
  }

  /** With unique ids, a claim that covers no cell is never a candidate,
      although "every cell it covers holds one id" holds of it vacuously. */
  lemma ZeroAreaNeverCandidate(claims: seq<Claim>, k: int)
    requires UniqueIds(claims) && 0 <= k < |claims| && !HasArea(claims[k])
    ensures claims[k].id !in SoleIds(Placement(claims))
  {
    CandidateIsClaim(claims, claims[k].id);
    assert forall k' :: 0 <= k' < |claims| && claims[k'].id == claims[k].id ==> !HasArea(claims[k']);
  }

  /** The two-pass candidate set equals the direct definition: the ids of the
      claims with positive area none of whose cells is shared. */
  lemma CandidatesAreIsolated(claims: seq<Claim>)
    requires UniqueIds(claims)
    ensures SoleIds(Placement(claims)) - SharedIds(Placement(claims)) ==
      set k | 0 <= k < |claims| && HasArea(claims[k]) && Isolated(claims, claims[k]) :: claims[k].id
  {
    var candidates := SoleIds(Placement(claims)) - SharedIds(Placement(claims));
    var direct := set k | 0 <= k < |claims| && HasArea(claims[k]) && Isolated(claims, claims[k]) :: claims[k].id;
    forall id | id in candidates ensures id in direct {
      CandidateIsClaim(claims, id);
      var k :| 0 <= k < |claims| && claims[k].id == id && HasArea(claims[k]);
      CandidateIffIsolated(claims, k);
    }
    forall id | id in direct ensures id in candidates {
      var k :| 0 <= k < |claims| && HasArea(claims[k]) && Isolated(claims, claims[k]) && claims[k].id == id;
      CandidateIffIsolated(claims, k);
    }
  }

  /** Claims with unique ids whose rectangles pairwise share no cell are all
      candidates, except those covering no cell. */
  lemma DisjointAllCandidates(claims: seq<Claim>, k: int)
    requires UniqueIds(claims) && 0 <= k < |claims| && HasArea(claims[k])
    requires forall k1, k2, cell :: 0 <= k1 < k2 < |claims| && Covers(claims[k1], cell) ==> !Covers(claims[k2], cell)
    ensures claims[k].id in SoleIds(Placement(claims)) - SharedIds(Placement(claims))
  {
    forall cell | Covers(claims[k], cell) ensures |IdsAt(claims, cell)| == 1 {
      FootprintCovered(claims, cell);
      SharedMeansTwo(claims, cell);
    }
    CandidateIffIsolated(claims, k);
  }

  // ---- order, duplicates and no claims ----

  /** Reordering the claims reorders each cell's list and nothing more. */
  lemma {:induction false} IdsAtPermutation(a: seq<Claim>, b: seq<Claim>, cell: Cell)
    requires multiset(a) == multiset(b)
    ensures multiset(IdsAt(a, cell)) == multiset(IdsAt(b, cell))
    decreases |a|
  {
    if a == [] {
      assert |b| == |multiset(b)| == 0;
    } else {
      var c, a' := a[|a| - 1], a[..|a| - 1];
      assert a == a' + [c];
      assert c in multiset(b);
      var k :| 0 <= k < |b| && b[k] == c;
      var front, back := b[..k], b[k + 1..];
      assert b == front + [c] + back;
      calc {
        multiset(a') + multiset{c};
        multiset(a);
        multiset(b);
        multiset(front) + multiset{c} + multiset(back);
        multiset(front + back) + multiset{c};
      }
      assert multiset(a') == multiset(a') + multiset{c} - multiset{c};
      assert multiset(front + back) == multiset(front + back) + multiset{c} - multiset{c};
      IdsAtPermutation(a', front + back, cell);
      IdsAtAppend(a', [c], cell);
      IdsAtAppend(front + [c], back, cell);
      IdsAtAppend(front, [c], cell);
      IdsAtAppend(front, back, cell);
    }
  }

  /** Two occupancy maps with the same keys whose lists hold the same ids
      the same number of times. */
  ghost predicate SameContents(f: map<Cell, seq<int>>, g: map<Cell, seq<int>>)
  {
    f.Keys == g.Keys && forall cell :: cell in f ==> multiset(f[cell]) == multiset(g[cell])
  }

  lemma PlacementPermutation(a: seq<Claim>, b: seq<Claim>)
    requires multiset(a) == multiset(b)
    ensures SameContents(Placement(a), Placement(b))
  {
    forall cell ensures cell in Placement(a) <==> cell in Placement(b) {
      FootprintCovered(a, cell);
      FootprintCovered(b, cell);
      IdsAtPermutation(a, b, cell);
      assert |IdsAt(a, cell)| == |multiset(IdsAt(a, cell))|;
      assert |IdsAt(b, cell)| == |multiset(IdsAt(b, cell))|;
    }
    forall cell | cell in Placement(a) ensures multiset(Placement(a)[cell]) == multiset(Placement(b)[cell]) {
      IdsAtPermutation(a, b, cell);
    }
  }

  /** The overlap cells, the sole ids and the shared ids depend only on each
      list's ids, not on their order. */
  lemma SameAnalysis(f: map<Cell, seq<int>>, g: map<Cell, seq<int>>)
    requires SameContents(f, g)
    ensures OverlapCells(f) == OverlapCells(g)
    ensures SoleIds(f) == SoleIds(g) && SharedIds(f) == SharedIds(g)
  {
    forall cell | cell in f ensures |f[cell]| == |g[cell]| {
      assert |f[cell]| == |multiset(f[cell])|;
      assert |g[cell]| == |multiset(g[cell])|;
    }
    forall id | id in SoleIds(f) ensures id in SoleIds(g) {
      var cell :| cell in f && |f[cell]| == 1 && f[cell][0] == id;
      SingleList(f[cell], g[cell]);
    }
    forall id | id in SoleIds(g) ensures id in SoleIds(f) {
      var cell :| cell in g && |g[cell]| == 1 && g[cell][0] == id;
      SingleList(g[cell], f[cell]);
    }
    forall id | id in SharedIds(f) ensures id in SharedIds(g) {
      var cell, p :| cell in f && |f[cell]| > 1 && 0 <= p < |f[cell]| && f[cell][p] == id;
      assert id in multiset(g[cell]);
      var q :| 0 <= q < |g[cell]| && g[cell][q] == id;
    }
    forall id | id in SharedIds(g) ensures id in SharedIds(f) {
      var cell, p :| cell in g && |g[cell]| > 1 && 0 <= p < |g[cell]| && g[cell][p] == id;
      assert id in multiset(f[cell]);
      var q :| 0 <= q < |f[cell]| && f[cell][q] == id;
    }
  }

  lemma SingleList(s: seq<int>, t: seq<int>)
    requires |s| == 1 && multiset(s) == multiset(t)
    ensures |t| == 1 && t[0] == s[0]
  {
    assert |t| == |multiset(t)| == 1;
    assert s == [s[0]] && t == [t[0]];
    assert t[0] in multiset(s);
  }

  /** Reading the claims in another order gives the same overlap cells, so
      the same count. */
  lemma OverlapPermutation(a: seq<Claim>, b: seq<Claim>)
    requires multiset(a) == multiset(b)
    ensures OverlapCells(Placement(a)) == OverlapCells(Placement(b))
    ensures |OverlapCells(Placement(a))| == |OverlapCells(Placement(b))|
  {
    PlacementPermutation(a, b);
    SameAnalysis(Placement(a), Placement(b));
  }

  /** Reading the claims in another order gives the same candidate set. */
  lemma CandidatesPermutation(a: seq<Claim>, b: seq<Claim>)
    requires multiset(a) == multiset(b)
    ensures SoleIds(Placement(a)) - SharedIds(Placement(a)) == SoleIds(Placement(b)) - SharedIds(Placement(b))
  {
    PlacementPermutation(a, b);
    SameAnalysis(Placement(a), Placement(b));
  }

  /** Two claims on the same rectangle: every cell of it is an overlap, so
      the count is the area, and neither claim is a candidate. */
  lemma IdenticalClaims(c: Claim, d: Claim)
    requires d.x == c.x && d.y == c.y && d.width == c.width && d.height == c.height
    ensures OverlapCells(Placement([c, d])) == Cells(c)
    ensures |OverlapCells(Placement([c, d]))| == if HasArea(c) then c.width * c.height else 0
    ensures SoleIds(Placement([c, d])) == {}
  {
    var f := Placement([c, d]);
    forall cell ensures cell in f <==> Covers(c, cell)
      ensures cell in f ==> |f[cell]| == 2
    {
      FootprintCovered([c, d], cell);
      assert [c, d] == [c] + [d];
      IdsAtAppend([c], [d], cell);
      IdsAtSingle(c, cell);
      IdsAtSingle(d, cell);
    }
    ClaimArea(c);
  }

  /** Without claims there is no overlap and no candidate. */
  lemma NoClaims()
    ensures Placement([]) == map[]
    ensures |OverlapCells(Placement([]))| == 0
    ensures SoleIds(Placement([])) - SharedIds(Placement([])) == {}
  {
  }

  // ---- the three claims of the unit test ----

  function Example(): seq<Claim>
  {
    [Claim(1, 1, 3, 4, 4), Claim(2, 3, 1, 4, 4), Claim(3, 5, 5, 2, 2)]
  }

  lemma IdsAtSingle(c: Claim, cell: Cell)
    ensures IdsAt([c], cell) == if Covers(c, cell) then [c.id] else []
  {
    assert [c][..0] == [];
  }

  lemma ExampleIds(cell: Cell)
    ensures IdsAt(Example(), cell) ==
      (if Covers(Example()[0], cell) then [1] else []) +
      (if Covers(Example()[1], cell) then [2] else []) +
      (if Covers(Example()[2], cell) then [3] else [])
  {
    var e := Example();
    assert e == [e[0]] + [e[1]] + [e[2]];
    IdsAtAppend([e[0]] + [e[1]], [e[2]], cell);
    IdsAtAppend([e[0]], [e[1]], cell);
    IdsAtSingle(e[0], cell);
    IdsAtSingle(e[1], cell);
    IdsAtSingle(e[2], cell);
  }

  /** The occupancy map of the unit test: an uncovered cell has no key, a cell
      of claim 2 alone holds `[2]`, and the four shared cells hold `[1, 2]`. */
  lemma ExampleFabric()
    ensures (2, 998) !in Placement(Example())
    ensures Placement(Example())[(3, 998)] == [2]
    ensures Placement(Example())[(3, 996)] == [1, 2] && Placement(Example())[(4, 996)] == [1, 2]
    ensures Placement(Example())[(3, 995)] == [1, 2] && Placement(Example())[(4, 995)] == [1, 2]
  {
    var e := Example();
    FootprintCovered(e, (2, 998)); ExampleIds((2, 998));
    FootprintCovered(e, (3, 998)); ExampleIds((3, 998));
    FootprintCovered(e, (3, 996)); ExampleIds((3, 996));
    FootprintCovered(e, (4, 996)); ExampleIds((4, 996));
    FootprintCovered(e, (3, 995)); ExampleIds((3, 995));
    FootprintCovered(e, (4, 995)); ExampleIds((4, 995));
  }

  /** The analysis of the unit test: four overlap cells, and claim 3 is the
      only candidate. */
  lemma ExampleAnalysis()
    ensures OverlapCells(Placement(Example())) == {(3, 995), (3, 996), (4, 995), (4, 996)}
    ensures |OverlapCells(Placement(Example()))| == 4
    ensures SoleIds(Placement(Example())) - SharedIds(Placement(Example())) == {3}
  {
    ExampleOverlaps();
    ExampleCandidates();
  }

  lemma ExampleOverlaps()
    ensures OverlapCells(Placement(Example())) == {(3, 995), (3, 996), (4, 995), (4, 996)}
  {
    var e := Example();
    forall cell ensures cell in OverlapCells(Placement(e)) <==> cell in {(3, 995), (3, 996), (4, 995), (4, 996)} {
      FootprintCovered(e, cell);
      ExampleIds(cell);
    }
  }

  lemma ExampleCandidates()
    ensures SoleIds(Placement(Example())) - SharedIds(Placement(Example())) == {3}
  {
    var e := Example();
    assert UniqueIds(e);
    CandidatesAreIsolated(e);
    assert Isolated(e, e[2]) by {
      forall cell | Covers(e[2], cell) ensures |IdsAt(e, cell)| == 1 { ExampleIds(cell); }
    }
    ExampleIds((3, 996));
    assert !Isolated(e, e[0]) && !Isolated(e, e[1]);
    assert (set k | 0 <= k < |e| && HasArea(e[k]) && Isolated(e, e[k]) :: e[k].id) == {3};
  }
}
