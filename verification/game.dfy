/**
 The mockup's game state and the three ways it changes: terrain assignment at
 start-up, selecting a hex on a click, and ending a turn.
 */
module Game {
  import opened Wrappers
  import opened HexGrid
  import opened Terrain

  /** Turn counter, whose turn it is, the selected hex (`null` is `None`), and terrain per cell id. */
  datatype GameState = GameState(
    turn: int,
    currentPlayer: int,
    selectedHex: Option<Cell>,
    hexTypes: map<string, Terrain>)

  /** The ids of `cells`, in order. */
  function CellIds(cells: seq<Cell>): (ids: seq<string>)
    ensures |ids| == |cells|
    ensures forall i :: 0 <= i < |cells| ==> ids[i] == cells[i].Id()
  {
    seq(|cells|, i requires 0 <= i < |cells| => cells[i].Id())
  }

  /** No later key of `keys` equals key `i`, so the entry written for it is not overwritten. */
  predicate LastWithKey<K(==)>(keys: seq<K>, i: int)
    requires 0 <= i < |keys|
  {
    forall j :: i < j < |keys| ==> keys[j] != keys[i]
  }

  /** Writes, key by key in order, the terrain of draw `i` under `keys[i]`; a later write to the same key wins. */
  function WriteTerrain<K(==)>(keys: seq<K>, draw: nat -> real): map<K, Terrain> {
    if |keys| == 0 then map[]
    else
      var n := |keys| - 1;
      WriteTerrain(keys[..n], draw)[keys[n] := Classify(draw(n))]
  }

  /** Exactly the written keys are present. */
  lemma {:induction false} WriteTerrainKeys<K>(keys: seq<K>, draw: nat -> real)
    ensures WriteTerrain(keys, draw).Keys == set i | 0 <= i < |keys| :: keys[i]
  {
    if |keys| > 0 {
      var n := |keys| - 1;
      var prefix := keys[..n];
      WriteTerrainKeys(prefix, draw);
      var before := set i | 0 <= i < n :: prefix[i];
      var all := set i | 0 <= i < |keys| :: keys[i];
      forall x | x in before
        ensures x in all
      {
        var i :| 0 <= i < n && prefix[i] == x;
        assert keys[i] == x;
      }
      forall x | x in all
        ensures x in before + {keys[n]}
      {
        var i :| 0 <= i < |keys| && keys[i] == x;
        if i < n {
          assert prefix[i] == x;
        }
      }
    }
  }

  /** A key that no later key repeats holds the terrain of its own draw. */
  lemma {:induction false} WriteTerrainValue<K>(keys: seq<K>, draw: nat -> real, i: nat)
    requires i < |keys| && LastWithKey(keys, i)
    ensures keys[i] in WriteTerrain(keys, draw)
    ensures WriteTerrain(keys, draw)[keys[i]] == Classify(draw(i))
  {
    var n := |keys| - 1;
    if i < n {
      var prefix := keys[..n];
      assert prefix[i] == keys[i];
      assert LastWithKey(prefix, i);
      WriteTerrainValue(prefix, draw, i);
    }
  }

  /** Pairwise distinct keys give as many map entries as keys. */
  lemma {:induction false} DistinctKeysCount<K>(keys: seq<K>)
    requires forall i, j :: 0 <= i < j < |keys| ==> keys[i] != keys[j]
    ensures |set i | 0 <= i < |keys| :: keys[i]| == |keys|
  {
    if |keys| > 0 {
      var n := |keys| - 1;
      var prefix := keys[..n];
      DistinctKeysCount(prefix);
      var before := set i | 0 <= i < n :: prefix[i];
      assert (set i | 0 <= i < |keys| :: keys[i]) == before + {keys[n]};
      assert keys[n] !in before;
    }
  }

  /** Every key that no later key repeats holds the terrain of its own draw. */
  lemma {:induction false} WriteTerrainValues<K>(keys: seq<K>, draw: nat -> real)
    ensures forall i :: 0 <= i < |keys| && LastWithKey(keys, i) ==>
      keys[i] in WriteTerrain(keys, draw) && WriteTerrain(keys, draw)[keys[i]] == Classify(draw(i))
  {
    forall i | 0 <= i < |keys| && LastWithKey(keys, i)
      ensures keys[i] in WriteTerrain(keys, draw) && WriteTerrain(keys, draw)[keys[i]] == Classify(draw(i))
    {
      WriteTerrainValue(keys, draw, i);
    }
  }

  /**
   Visits the cells in order and stores, under each cell's id, the terrain of
   the next random draw; `draw(i)` is the value drawn for cell `i`. Exactly
   the cells' ids become keys, and a cell whose id no later cell repeats
   finds the terrain of its own draw there.
   */
  function AssignTerrain(cells: seq<Cell>, draw: nat -> real): (types: map<string, Terrain>)
    ensures types.Keys == set i | 0 <= i < |cells| :: cells[i].Id()
    ensures forall i :: 0 <= i < |cells| && LastWithKey(CellIds(cells), i) ==>
      types[cells[i].Id()] == Classify(draw(i))
  {
    var ids := CellIds(cells);
    WriteTerrainKeys(ids, draw);
    WriteTerrainValues(ids, draw);
    assert (set i | 0 <= i < |ids| :: ids[i]) == set i | 0 <= i < |cells| :: cells[i].Id();
    WriteTerrain(ids, draw)
  }

  /** Turn 1, player 1, nothing selected, and a terrain entry under every cell's id. */
  function InitialState(grid: seq<Cell>, draw: nat -> real): (st: GameState)
    ensures st.turn == 1 && st.currentPlayer == 1 && st.selectedHex == None
    ensures st.hexTypes.Keys == set i | 0 <= i < |grid| :: grid[i].Id()
  {
    GameState(1, 1, None, AssignTerrain(grid, draw))
  }

  /** Every cell of the built grid has its own entry, holding the terrain of its own draw. */
  lemma InitialTerrainPerCell(layout: Layout, draw: nat -> real)
    ensures var grid, st := BuildGrid(layout), InitialState(BuildGrid(layout), draw);
      && st.turn == 1 && st.currentPlayer == 1 && st.selectedHex == None
      && |st.hexTypes| == |grid|
      && forall i :: 0 <= i < |grid| ==> grid[i].Id() in st.hexTypes && st.hexTypes[grid[i].Id()] == Classify(draw(i))
  {
    var grid := BuildGrid(layout);
    var ids := CellIds(grid);
    GridIdsDistinct(layout);
    WriteTerrainKeys(ids, draw);
    forall i | 0 <= i < |grid|
      ensures ids[i] in WriteTerrain(ids, draw) && WriteTerrain(ids, draw)[ids[i]] == Classify(draw(i))
    {
      assert LastWithKey(ids, i);
      WriteTerrainValue(ids, draw, i);
    }
    DistinctKeysCount(ids);
  }

  /** Index of the first cell the hit test accepts, scanning in stored order. */
  function FirstHit(cells: seq<Cell>, hit: Cell -> bool): (k: Option<nat>)
    ensures k.Some? ==> k.value < |cells| && hit(cells[k.value])
    ensures k.Some? ==> forall j :: 0 <= j < k.value ==> !hit(cells[j])
    ensures k.None? <==> forall j :: 0 <= j < |cells| ==> !hit(cells[j])
  {
    if |cells| == 0 then None
    else if hit(cells[0]) then Some(0)
    else match FirstHit(cells[1..], hit)
      case None => None
      case Some(k) => Some(k + 1)
  }

  /**
   A pointer-down event. `hit(c)` says whether the pointer lies inside hex `c`
   as drawn on screen. The first hit cell becomes the selection; when no cell
   is hit the state is left as it was.
   */
  function Click(st: GameState, grid: seq<Cell>, hit: Cell -> bool): (st': GameState)
    ensures st'.turn == st.turn && st'.currentPlayer == st.currentPlayer && st'.hexTypes == st.hexTypes
    ensures forall i :: 0 <= i < |grid| && hit(grid[i]) && (forall j :: 0 <= j < i ==> !hit(grid[j])) ==>
      st'.selectedHex == Some(grid[i])
    ensures (forall j :: 0 <= j < |grid| ==> !hit(grid[j])) ==> st' == st
  {
    match FirstHit(grid, hit)
    case None => st
    case Some(k) => st.(selectedHex := Some(grid[k]))
  }

  /** Clicking twice at the same spot selects the same hex as clicking once. */
  lemma ClickIdempotent(st: GameState, grid: seq<Cell>, hit: Cell -> bool)
    ensures Click(Click(st, grid, hit), grid, hit) == Click(st, grid, hit)
  {
  }

  /** The end-turn button: the counter goes up by one and player 1 hands over to 2, anyone else to 1. */
  function EndTurn(st: GameState): (st': GameState)
    ensures st'.turn == st.turn + 1
    ensures st'.currentPlayer in {1, 2}
    ensures st.currentPlayer in {1, 2} ==> st'.currentPlayer == 3 - st.currentPlayer
    ensures st'.selectedHex == st.selectedHex && st'.hexTypes == st.hexTypes
  {
    st.(turn := st.turn + 1, currentPlayer := if st.currentPlayer == 1 then 2 else 1)
  }

  /** Two ends of turn give the turn back to the same player, two turns later. */
  lemma EndTurnTwice(st: GameState)
    requires st.currentPlayer in {1, 2}
    ensures EndTurn(EndTurn(st)) == st.(turn := st.turn + 2)
  {
  }

  /** `n` presses of the end-turn button. */
  function EndTurns(st: GameState, n: nat): GameState
    decreases n
  {
    if n == 0 then st else EndTurn(EndTurns(st, n - 1))
  }

  /** From the initial state, after n turns it is turn n + 1 and player 1 moves on even n, player 2 on odd n. */
  lemma {:induction false} EndTurnsAlternate(st: GameState, n: nat)
    requires st.turn == 1 && st.currentPlayer == 1
    ensures EndTurns(st, n).turn == n + 1
    ensures EndTurns(st, n).currentPlayer == if n % 2 == 0 then 1 else 2
    ensures EndTurns(st, n).selectedHex == st.selectedHex && EndTurns(st, n).hexTypes == st.hexTypes
  {
    if n > 0 {
      EndTurnsAlternate(st, n - 1);
    }
  }
}
