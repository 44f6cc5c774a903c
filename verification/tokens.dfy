/** Game pieces and the 5x5 grid they stand on: the `Token` record, the board's
    bounds test and cell lookup, and a token's own legal-move generation. */
module Tokens {
  import opened Wrappers

  /** A cell or a displacement, as (column, row). */
  type Pos = (int, int)

  /** A game piece. The datatype constructor is the C# constructor: it stores
      name, coordinates, owner and offsets exactly as given. */
  datatype Token = Token(name: string, x: int, y: int, player: string, offsets: seq<Pos>)

  /** The board's `Token[5,5]` array; a cell absent from the map is null. */
  type Grid = map<Pos, Token>

  const Size: int := 5

  /** `Board.IsPositionValid`. */
  predicate IsPositionValid(x: int, y: int) {
    0 <= x < Size && 0 <= y < Size
  }

  /** `Board.GetTokenAtPosition`: the occupant of an in-bounds cell. */
  function TokenAt(g: Grid, x: int, y: int): (r: Option<Token>)
    requires IsPositionValid(x, y)
    ensures r.Some? <==> (x, y) in g
    ensures r.Some? ==> r.value == g[(x, y)]
  {
    if (x, y) in g then Some(g[(x, y)]) else None
  }

  /** The cell `offset` leads to from where `t` stands. */
  function Shift(t: Token, offset: Pos): Pos {
    (t.x + offset.0, t.y + offset.1)
  }

  /** `t` may go to `target`: it lies on the board and is empty or held by a
      token of another owner. */
  predicate Admissible(t: Token, g: Grid, target: Pos) {
    && IsPositionValid(target.0, target.1)
    && (TokenAt(g, target.0, target.1).None? || TokenAt(g, target.0, target.1).value.player != t.player)
  }

  /** The targets of `offsets`, in order, that `t` may go to. */
  function LegalTargets(t: Token, g: Grid, offsets: seq<Pos>): (r: seq<Pos>)
    ensures |r| <= |offsets|
    ensures forall k :: 0 <= k < |r| ==> Admissible(t, g, r[k])
  {
    if |offsets| == 0 then []
    else
      var last := |offsets| - 1;
      var init := LegalTargets(t, g, offsets[..last]);
      var target := Shift(t, offsets[last]);
      if Admissible(t, g, target) then init + [target] else init
  }

  /** `Token.FindLegalMoves(board)`. */
  function FindLegalMoves(t: Token, g: Grid): (r: seq<Pos>)
    ensures |r| <= |t.offsets|
    ensures forall k :: 0 <= k < |r| ==> Admissible(t, g, r[k])
  {
    LegalTargets(t, g, t.offsets)
  }

  /** `FindLegalMoves` lists exactly the admissible cells that one of the
      token's offsets leads to. */
  lemma FindLegalMovesMembers(t: Token, g: Grid)
    ensures forall target :: target in FindLegalMoves(t, g) <==>
      (Admissible(t, g, target) && exists j :: 0 <= j < |t.offsets| && target == Shift(t, t.offsets[j]))
  {
    LegalTargetsMembers(t, g, t.offsets);
  }

  /** Indices of the offsets whose targets `t` may go to, in order. */
  function KeptOffsets(t: Token, g: Grid, offsets: seq<Pos>): (ks: seq<nat>)
    ensures forall i :: 0 <= i < |ks| ==> ks[i] < |offsets| && Admissible(t, g, Shift(t, offsets[ks[i]]))
    ensures forall i, j :: 0 <= i < j < |ks| ==> ks[i] < ks[j]
  {
    if |offsets| == 0 then []
    else
      var last := |offsets| - 1;
      var init := KeptOffsets(t, g, offsets[..last]);
      assert forall j :: 0 <= j < last ==> offsets[..last][j] == offsets[j];
      if Admissible(t, g, Shift(t, offsets[last])) then init + [last] else init
  }

  /** The legal targets are exactly the targets of the admissible offsets,
      in offset declaration order. */
  lemma {:induction false} LegalTargetsFollowOffsets(t: Token, g: Grid, offsets: seq<Pos>)
    ensures var r := LegalTargets(t, g, offsets); var ks := KeptOffsets(t, g, offsets);
      |r| == |ks| && forall i :: 0 <= i < |ks| ==> r[i] == Shift(t, offsets[ks[i]])
  {
    if |offsets| > 0 {
      var last := |offsets| - 1;
      var prefix := offsets[..last];
      LegalTargetsFollowOffsets(t, g, prefix);
      var ks0 := KeptOffsets(t, g, prefix);
      var r0 := LegalTargets(t, g, prefix);
      forall i | 0 <= i < |ks0|
        ensures r0[i] == Shift(t, offsets[ks0[i]])
      {
        assert prefix[ks0[i]] == offsets[ks0[i]];
      }
    }
  }

  lemma {:induction false} KeptOffsetsComplete(t: Token, g: Grid, offsets: seq<Pos>, j: nat)
    requires j < |offsets| && Admissible(t, g, Shift(t, offsets[j]))
    ensures j in KeptOffsets(t, g, offsets)
  {
    var last := |offsets| - 1;
    if j < last {
      KeptOffsetsComplete(t, g, offsets[..last], j);
    }
  }

  /** A target is legal exactly when it is admissible and some offset leads
      to it. */
  lemma LegalTargetsMembers(t: Token, g: Grid, offsets: seq<Pos>)
    ensures forall target :: target in LegalTargets(t, g, offsets) <==>
      (Admissible(t, g, target) && exists j :: 0 <= j < |offsets| && target == Shift(t, offsets[j]))
  {
    var r := LegalTargets(t, g, offsets);
    var ks := KeptOffsets(t, g, offsets);
    LegalTargetsFollowOffsets(t, g, offsets);
    forall target | Admissible(t, g, target) && exists j :: 0 <= j < |offsets| && target == Shift(t, offsets[j])
      ensures target in r
    {
      var j :| 0 <= j < |offsets| && target == Shift(t, offsets[j]);
      KeptOffsetsComplete(t, g, offsets, j);
      var i :| 0 <= i < |ks| && ks[i] == j;
      assert r[i] == target;
    }
    forall target | target in r
      ensures exists j :: 0 <= j < |offsets| && target == Shift(t, offsets[j])
    {
      var i :| 0 <= i < |r| && r[i] == target;
      assert target == Shift(t, offsets[ks[i]]);
    }
  }

  /** A token without offsets has no legal move. */
  lemma NoOffsetsNoMoves(t: Token, g: Grid)
    requires |t.offsets| == 0
    ensures FindLegalMoves(t, g) == []
  {
  }
}
