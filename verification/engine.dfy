/** The engine facade: the token index, the move and board-state wire
    formats (`name:x,y` and `name:x,y;name:x,y;...`), move handling with
    capture, and the best-move query.

    `Engine` keeps references: one token object is shared by the index and
    the grid, and both `HandleMove` and `HandleBoardState` change token
    coordinates in place. The model keeps that sharing explicit: token
    objects live in `heap`, and the grid and the index hold positions in
    it. */
module Engines {
  import opened Wrappers
  import opened Text
  import opened Tokens
  import opened Boards
  import Search
  import GameTree

  /** A reference to a token object. */
  type Ref = nat

  /** `Engine`: the token objects (`heap`), the engine board's grid of
      references (`cells`) and the `tokensByName` dictionary (`byName`). */
  datatype Engine = Engine(heap: seq<Token>, cells: map<Pos, Ref>, byName: map<string, Ref>)

  /** What every engine satisfies: references point into the heap, grid
      keys are board cells, every token records a board cell, and the
      index files each token under its own name. */
  predicate Valid(e: Engine) {
    && (forall c :: c in e.cells ==> IsPositionValid(c.0, c.1) && e.cells[c] < |e.heap|)
    && (forall n :: n in e.byName ==> e.byName[n] < |e.heap| && e.heap[e.byName[n]].name == n)
    && (forall i :: 0 <= i < |e.heap| ==> IsPositionValid(e.heap[i].x, e.heap[i].y))
  }

  /** What a freshly built engine also satisfies, and what the board-state
      round trip needs: every token on the grid records the cell it stands
      on and is the token the index files under its name. */
  predicate Coherent(e: Engine)
    requires Valid(e)
  {
    forall c :: c in e.cells ==>
      var t := e.heap[e.cells[c]];
      (t.x, t.y) == c && t.name in e.byName && e.byName[t.name] == e.cells[c]
  }

  /** The grid as the engine's board sees it, each reference followed. */
  function GridOf(e: Engine): Grid
    requires Valid(e)
  {
    map c | c in e.cells :: e.heap[e.cells[c]]
  }

  /** The engine's board. Its own name dictionary is never read through the
      engine (the search reads the one `CreateCopy` rebuilds), so it is
      left empty. */
  function BoardOf(e: Engine): Board
    requires Valid(e)
  {
    Board(GridOf(e), map[])
  }

  lemma ValidBoardInBounds(e: Engine)
    requires Valid(e)
    ensures TokensInBounds(BoardOf(e))
  {
  }

  /** The token of a name, if the index has one. */
  function Lookup(e: Engine, name: string): (r: Option<Token>)
    requires Valid(e)
    ensures r.Some? <==> name in e.byName
    ensures r.Some? ==> r.value.name == name && r.value == e.heap[e.byName[name]]
  {
    if name in e.byName then Some(e.heap[e.byName[name]]) else None
  }

  // ---------------------------------------------------------------------
  // Construction

  /** The tokens' names are pairwise different. */
  predicate DistinctNames(tokens: seq<Token>) {
    forall i, j :: 0 <= i < j < |tokens| ==> tokens[i].name != tokens[j].name
  }

  /** Every token records a board cell. */
  predicate AllOnBoard(tokens: seq<Token>) {
    forall i :: 0 <= i < |tokens| ==> IsPositionValid(tokens[i].x, tokens[i].y)
  }

  /** One step of the constructor's loop: the token is appended to the
      heap, filed under its name and placed on the cell it records. */
  function AddOne(e: Engine, t: Token): (r: Engine)
    requires Valid(e) && t.name !in e.byName && IsPositionValid(t.x, t.y)
    ensures Valid(r)
  {
    var ref := |e.heap|;
    Engine(e.heap + [t], e.cells[(t.x, t.y) := ref], e.byName[t.name := ref])
  }

  /** Adding a token keeps the engine coherent, files the token under its
      name and leaves every other name's token as it was. */
  lemma AddOneSpec(e: Engine, t: Token)
    requires Valid(e) && Coherent(e) && t.name !in e.byName && IsPositionValid(t.x, t.y)
    ensures Coherent(AddOne(e, t))
    ensures Lookup(AddOne(e, t), t.name) == Some(t)
    ensures forall n :: n in e.byName ==> Lookup(AddOne(e, t), n) == Lookup(e, n)
    ensures AddOne(e, t).byName.Keys == e.byName.Keys + {t.name}
  {
  }

  /** The constructor's loop from the current state: each token is added
      to the index (a name already there throws) and then placed on the
      cell it records (a cell off the board throws). */
  function AddTokens(e: Engine, tokens: seq<Token>): (r: Result<Engine>)
    requires Valid(e)
    ensures r.Success? ==> Valid(r.value)
    decreases |tokens|
  {
    if tokens == [] then Success(e)
    else if tokens[0].name in e.byName then Failure(DuplicateName)
    else if !IsPositionValid(tokens[0].x, tokens[0].y) then Failure(OutOfBoard)
    else AddTokens(AddOne(e, tokens[0]), tokens[1..])
  }

  /** `new Engine(tokens)`. */
  function NewEngine(tokens: seq<Token>): (r: Result<Engine>)
    ensures r.Success? ==> Valid(r.value)
    ensures r.Success? <==> DistinctNames(tokens) && AllOnBoard(tokens)
    ensures r.Success? ==> Coherent(r.value) && r.value.byName.Keys == NamesOf(tokens)
  {
    var e0 := Engine([], map[], map[]);
    assert e0.byName.Keys == {};
    AddTokensGuards(e0, tokens);
    AddsCleanlyIff({}, tokens);
    if AddTokens(e0, tokens).Success? then
      AddTokensCoherent(e0, tokens);
      AddTokens(e0, tokens)
    else
      AddTokens(e0, tokens)
  }

  /** The names of a sequence of tokens. */
  function NamesOf(tokens: seq<Token>): (r: set<string>)
    ensures forall i :: 0 <= i < |tokens| ==> tokens[i].name in r
    decreases |tokens|
  {
    if tokens == [] then {} else {tokens[0].name} + NamesOf(tokens[1..])
  }

  /** The loop's guards, on the names filed so far: every name is new when
      it comes and every token records a board cell. */
  predicate AddsCleanly(names: set<string>, tokens: seq<Token>)
    decreases |tokens|
  {
    tokens == [] ||
      (tokens[0].name !in names && IsPositionValid(tokens[0].x, tokens[0].y)
       && AddsCleanly(names + {tokens[0].name}, tokens[1..]))
  }

  /** The loop succeeds exactly when its guards pass throughout. */
  lemma {:induction false} AddTokensGuards(e: Engine, tokens: seq<Token>)
    requires Valid(e)
    ensures AddTokens(e, tokens).Success? <==> AddsCleanly(e.byName.Keys, tokens)
    decreases |tokens|
  {
    if tokens != [] && tokens[0].name !in e.byName && IsPositionValid(tokens[0].x, tokens[0].y) {
      var e' := AddOne(e, tokens[0]);
      assert e'.byName.Keys == e.byName.Keys + {tokens[0].name};
      AddTokensGuards(e', tokens[1..]);
    }
  }

  /** The guards pass throughout exactly when the names are new and
      pairwise different and every token records a board cell. */
  lemma {:induction false} AddsCleanlyIff(names: set<string>, tokens: seq<Token>)
    ensures AddsCleanly(names, tokens) <==>
      DistinctNames(tokens) && AllOnBoard(tokens) && NamesOf(tokens) !! names
    decreases |tokens|
  {
    if tokens != [] {
      var t, rest := tokens[0], tokens[1..];
      AddsCleanlyIff(names + {t.name}, rest);
      assert forall i :: 0 <= i < |rest| ==> rest[i] == tokens[i + 1];
      if DistinctNames(tokens) {
        assert t.name !in NamesOf(rest) by { NamesOfMembers(rest, t.name); }
      }
      if t.name !in NamesOf(rest) && DistinctNames(rest) {
        forall i, j | 0 <= i < j < |tokens| ensures tokens[i].name != tokens[j].name {
          assert tokens[j] == rest[j - 1];
          if i > 0 { assert tokens[i] == rest[i - 1]; }
        }
      }
      if !IsPositionValid(t.x, t.y) {
        assert !AllOnBoard(tokens);
      }
    }
  }

  /** A name is among the tokens' names exactly when some token bears it. */
  lemma {:induction false} NamesOfMembers(tokens: seq<Token>, n: string)
    ensures n in NamesOf(tokens) <==> exists i :: 0 <= i < |tokens| && tokens[i].name == n
    decreases |tokens|
  {
    if tokens != [] {
      NamesOfMembers(tokens[1..], n);
      if n in NamesOf(tokens[1..]) {
        var i :| 0 <= i < |tokens[1..]| && tokens[1..][i].name == n;
        assert tokens[i + 1].name == n;
      }
      if exists i :: 0 <= i < |tokens| && tokens[i].name == n {
        var i :| 0 <= i < |tokens| && tokens[i].name == n;
        if i > 0 { assert tokens[1..][i - 1].name == n; }
      }
    }
  }

  /** A successful loop leaves a coherent engine that knows the names
      filed before and the added ones, and no other. */
  lemma {:induction false} AddTokensCoherent(e: Engine, tokens: seq<Token>)
    requires Valid(e) && Coherent(e) && AddTokens(e, tokens).Success?
    ensures Coherent(AddTokens(e, tokens).value)
    ensures AddTokens(e, tokens).value.byName.Keys == e.byName.Keys + NamesOf(tokens)
    decreases |tokens|
  {
    if tokens != [] {
      var e' := AddOne(e, tokens[0]);
      AddOneSpec(e, tokens[0]);
      assert AddTokens(e, tokens) == AddTokens(e', tokens[1..]);
      AddTokensCoherent(e', tokens[1..]);
    }
  }

  /** A successful loop files every added token under its name, unchanged,
      and keeps the tokens filed before. */
  lemma {:induction false} AddTokensLookups(e: Engine, tokens: seq<Token>)
    requires Valid(e) && AddTokens(e, tokens).Success?
    ensures var r := AddTokens(e, tokens).value;
      && (forall i :: 0 <= i < |tokens| ==> Lookup(r, tokens[i].name) == Some(tokens[i]))
      && (forall n :: n in e.byName ==> Lookup(r, n) == Lookup(e, n))
    decreases |tokens|
  {
    if tokens != [] {
      var t := tokens[0];
      var e' := AddOne(e, t);
      assert AddTokens(e, tokens) == AddTokens(e', tokens[1..]);
      AddTokensLookups(e', tokens[1..]);
      var r := AddTokens(e, tokens).value;
      forall i | 0 <= i < |tokens| ensures Lookup(r, tokens[i].name) == Some(tokens[i]) {
        if i > 0 {
          assert tokens[1..][i - 1] == tokens[i];
        } else {
          assert Lookup(r, t.name) == Lookup(e', t.name);
        }
      }
      forall n | n in e.byName ensures Lookup(r, n) == Lookup(e, n) {
        assert Lookup(r, n) == Lookup(e', n);
      }
    }
  }

  /** `new Engine(tokens)` succeeds exactly on tokens with pairwise
      different names standing on board cells, and then reports each
      token's owner and position and nothing for any other name. */
  lemma NewEngineSpec(tokens: seq<Token>)
    ensures NewEngine(tokens).Success? <==> DistinctNames(tokens) && AllOnBoard(tokens)
    ensures NewEngine(tokens).Success? ==>
      var e := NewEngine(tokens).value;
      && Coherent(e)
      && (forall i :: 0 <= i < |tokens| ==>
            GetTokenPlayer(e, tokens[i].name) == Some(tokens[i].player)
            && GetTokenPosition(e, tokens[i].name) == (tokens[i].x, tokens[i].y))
      && (forall n :: n !in NamesOf(tokens) ==> GetTokenPlayer(e, n) == None && GetTokenPosition(e, n) == (-1, -1))
  {
    var e0 := Engine([], map[], map[]);
    assert e0.byName.Keys == {};
    AddTokensGuards(e0, tokens);
    AddsCleanlyIff({}, tokens);
    assert NamesOf(tokens) !! {};
    if NewEngine(tokens).Success? {
      AddTokensCoherent(e0, tokens);
      AddTokensLookups(e0, tokens);
      var e := NewEngine(tokens).value;
      assert e.byName.Keys == NamesOf(tokens);
    }
  }

  // ---------------------------------------------------------------------
  // Queries

  /** `GetTokenPlayer(name)`: the owner, or null for an unknown name. */
  function GetTokenPlayer(e: Engine, name: string): (r: Option<string>)
    requires Valid(e)
    ensures r.Some? <==> name in e.byName
    ensures r.Some? ==> r.value == e.heap[e.byName[name]].player
  {
    match Lookup(e, name)
    case Some(t) => Some(t.player)
    case None => None
  }

  /** `GetTokenPosition(name)`: the recorded coordinates, or (-1, -1) for
      an unknown name. */
  function GetTokenPosition(e: Engine, name: string): (r: (int, int))
    requires Valid(e)
    ensures name in e.byName <==> IsPositionValid(r.0, r.1)
    ensures name in e.byName ==> r == (e.heap[e.byName[name]].x, e.heap[e.byName[name]].y)
    ensures name !in e.byName ==> r == (-1, -1)
  {
    match Lookup(e, name)
    case Some(t) => (t.x, t.y)
    case None => (-1, -1)
  }

  /** `GetPossibleMoves(name)`: the token's legal targets on the engine's
      board, or none for an unknown name. */
  function GetPossibleMoves(e: Engine, name: string): (r: seq<Pos>)
    requires Valid(e)
    ensures name !in e.byName ==> r == []
    ensures forall k :: 0 <= k < |r| ==> Admissible(e.heap[e.byName[name]], GridOf(e), r[k])
  {
    match Lookup(e, name)
    case Some(t) => FindLegalMoves(t, GridOf(e))
    case None => []
  }

  /** A known token's possible moves are exactly the in-bounds cells one
      of its offsets reaches that are empty or held by another owner. */
  lemma GetPossibleMovesMembers(e: Engine, name: string)
    requires Valid(e) && name in e.byName
    ensures var t := e.heap[e.byName[name]];
      forall target :: target in GetPossibleMoves(e, name) <==>
        (Admissible(t, GridOf(e), target) && exists j :: 0 <= j < |t.offsets| && target == Shift(t, t.offsets[j]))
  {
    FindLegalMovesMembers(e.heap[e.byName[name]], GridOf(e));
  }

  // ---------------------------------------------------------------------
  // The `name:x,y` notation

  /** `$"{name}:{x},{y}"`: one move, or one token of a board state. */
  function Notation(name: string, x: int, y: int): string {
    name + ":" + IntToString(x) + "," + IntToString(y)
  }

  /** The pieces `Split` finds in the notation of a name free of `:` and
      non-negative `int` coordinates. */
  lemma NotationParts(name: string, x: int, y: int)
    requires ':' !in name && 0 <= x <= IntMax && 0 <= y <= IntMax
    ensures Split(Notation(name, x, y), ':') == [name, IntToString(x) + "," + IntToString(y)]
    ensures Split(IntToString(x) + "," + IntToString(y), ',') == [IntToString(x), IntToString(y)]
    ensures ParseInt(IntToString(x)) == Some(x) && ParseInt(IntToString(y)) == Some(y)
  {
    var xs, ys := IntToString(x), IntToString(y);
    var rest := xs + "," + ys;
    DigitsHaveNoSeparator(xs, ':');
    DigitsHaveNoSeparator(ys, ':');
    DigitsHaveNoSeparator(xs, ',');
    DigitsHaveNoSeparator(ys, ',');
    assert ':' !in rest;
    assert Notation(name, x, y) == name + [':'] + rest;
    SplitAtFirst(name, rest, ':');
    SplitWithoutSeparator(rest, ':');
    assert rest == xs + [','] + ys;
    SplitAtFirst(xs, ys, ',');
    SplitWithoutSeparator(ys, ',');
    ParseIntToString(x);
    ParseIntToString(y);
  }

  /** `GetTokenNameFromMove(move)`: the text before the only `:`, or null
      when the move does not have exactly one. */
  function GetTokenNameFromMove(move: string): (r: Option<string>)
    ensures r.Some? <==> CountChar(move, ':') == 1
    ensures r.Some? ==> ':' !in r.value && r.value + [':'] <= move
  {
    var parts := Split(move, ':');
    if |parts| == 2 then
      assert parts[1..] == [parts[1]];
      SplitPair(move, ':');
      Some(parts[0])
    else None
  }

  /** `GetTargetPositionFromMove(move)`: the two numbers after the only
      `:`, or (-1, -1) when the move is not of the form `name:x,y`. */
  function GetTargetPositionFromMove(move: string): (r: (int, int))
    ensures r == (-1, -1) || (0 <= r.0 <= IntMax && 0 <= r.1 <= IntMax)
    ensures CountChar(move, ':') != 1 ==> r == (-1, -1)
  {
    var parts := Split(move, ':');
    if |parts| == 2 then
      var coords := Split(parts[1], ',');
      if |coords| == 2 && ParseInt(coords[0]).Some? && ParseInt(coords[1]).Some? then
        (ParseInt(coords[0]).value, ParseInt(coords[1]).value)
      else (-1, -1)
    else (-1, -1)
  }

  /** Any `name:xs,ys` whose two texts parse reads back as their values,
      whatever digits the texts are written with (leading zeros included). */
  lemma TargetOfParts(name: string, xs: string, ys: string, x: int, y: int)
    requires ':' !in name && ParseInt(xs) == Some(x) && ParseInt(ys) == Some(y)
    ensures GetTargetPositionFromMove(name + ":" + xs + "," + ys) == (x, y)
  {
    var rest := xs + "," + ys;
    DigitsHaveNoSeparator(xs, ':');
    DigitsHaveNoSeparator(ys, ':');
    DigitsHaveNoSeparator(xs, ',');
    DigitsHaveNoSeparator(ys, ',');
    assert ':' !in rest;
    assert name + ":" + xs + "," + ys == name + [':'] + rest;
    SplitAtFirst(name, rest, ':');
    SplitWithoutSeparator(rest, ':');
    assert rest == xs + [','] + ys;
    SplitAtFirst(xs, ys, ',');
    SplitWithoutSeparator(ys, ',');
  }

  /** A target other than (-1, -1) only comes from a move of that shape:
      a `:`-free name, `:`, a text that parses to the column, `,` and a
      text that parses to the row. So every move not of that shape gives
      (-1, -1). */
  lemma TargetHasParts(move: string)
    ensures var r := GetTargetPositionFromMove(move);
      r != (-1, -1) ==>
        exists name: string, xs: string, ys: string ::
          && move == name + ":" + xs + "," + ys
          && ':' !in name && ParseInt(xs) == Some(r.0) && ParseInt(ys) == Some(r.1)
  {
    var r := GetTargetPositionFromMove(move);
    if r != (-1, -1) {
      var parts := Split(move, ':');
      var coords := Split(parts[1], ',');
      SplitPair(move, ':');
      SplitPair(parts[1], ',');
      assert move == parts[0] + ":" + coords[0] + "," + coords[1];
    }
  }

  /** Reading a move back: the name and target written in the notation are
      the ones the two parsers return. */
  lemma MoveRoundTrip(name: string, x: int, y: int)
    requires ':' !in name && 0 <= x <= IntMax && 0 <= y <= IntMax
    ensures GetTokenNameFromMove(Notation(name, x, y)) == Some(name)
    ensures GetTargetPositionFromMove(Notation(name, x, y)) == (x, y)
  {
    NotationParts(name, x, y);
  }

  // ---------------------------------------------------------------------
  // Moves

  /** The token captured by a move to `target`: the occupant of that cell,
      if any. */
  function Captured(e: Engine, target: Pos): Option<Token>
    requires Valid(e)
  {
    if target in e.cells then Some(e.heap[e.cells[target]]) else None
  }

  /** What `HandleMove` does once the target is legal: the captured token's
      name leaves the index, `Board.MoveToken` empties the cell the token
      records and puts the token on the target, and the token filed under
      the mover's name gets the target coordinates (a missing entry
      throws). */
  function PlayMove(e: Engine, ref: Ref, tx: int, ty: int): (r: Result<Engine>)
    requires Valid(e) && ref < |e.heap| && IsPositionValid(tx, ty)
    ensures r.Success? ==> Valid(r.value)
    ensures r.Success? ==> r.value.byName.Keys <= e.byName.Keys && |r.value.heap| == |e.heap|
  {
    var t := e.heap[ref];
    var index := match Captured(e, (tx, ty))
      case Some(c) => e.byName - {c.name}
      case None => e.byName;
    var cells := (e.cells - {(t.x, t.y)})[(tx, ty) := ref];
    var heap := e.heap[ref := t.(x := tx, y := ty)];
    if t.name !in index then Failure(MissingKey)
    else Success(Engine(heap[index[t.name] := heap[index[t.name]].(x := tx, y := ty)], cells, index))
  }

  /** `HandleMove(move)`: a move with no `:` throws; an unknown name leaves
      the engine alone; coordinates that are not numbers throw; a target
      outside the token's legal moves leaves the engine alone; any other
      move is played. */
  function HandleMove(e: Engine, move: string): (r: Result<Engine>)
    requires Valid(e)
    ensures r.Success? ==> Valid(r.value)
    ensures CountChar(move, ':') == 0 ==> r == Failure(Malformed)
  {
    var parts := Split(move, ':');
    if |parts| < 2 then Failure(Malformed)
    else if parts[0] !in e.byName then Success(e)
    else
      var coords := Split(parts[1], ',');
      if ParseInt(coords[0]).None? || |coords| < 2 || ParseInt(coords[1]).None? then Failure(Malformed)
      else
        var ref := e.byName[parts[0]];
        var target := (ParseInt(coords[0]).value, ParseInt(coords[1]).value);
        if target !in FindLegalMoves(e.heap[ref], GridOf(e)) then Success(e)
        else PlayMove(e, ref, target.0, target.1)
  }

  /** On a coherent engine a legal move of an indexed token always
      completes, and the engine stays coherent. */
  lemma PlayMoveCoherent(e: Engine, ref: Ref, tx: int, ty: int)
    requires Valid(e) && Coherent(e) && ref < |e.heap|
    requires e.heap[ref].name in e.byName && e.byName[e.heap[ref].name] == ref
    requires Admissible(e.heap[ref], GridOf(e), (tx, ty))
    ensures PlayMove(e, ref, tx, ty).Success?
    ensures Coherent(PlayMove(e, ref, tx, ty).value)
  {
    var t := e.heap[ref];
    if (tx, ty) in e.cells {
      assert GridOf(e)[(tx, ty)] == e.heap[e.cells[(tx, ty)]];
    }
    var r := PlayMove(e, ref, tx, ty).value;
    assert r.byName[t.name] == ref;
    forall c | c in r.cells
      ensures var u := r.heap[r.cells[c]];
        (u.x, u.y) == c && u.name in r.byName && r.byName[u.name] == r.cells[c]
    {
      if c != (tx, ty) {
        assert r.cells[c] == e.cells[c] != ref;
        assert r.heap[e.cells[c]] == e.heap[e.cells[c]];
      }
    }
  }

  /** A played move puts the token on the target with the target's
      coordinates, empties the cell it recorded, and drops the captured
      token's name from the index. */
  lemma PlayMoveEffect(e: Engine, ref: Ref, tx: int, ty: int)
    requires Valid(e) && ref < |e.heap| && IsPositionValid(tx, ty)
    requires e.heap[ref].name in e.byName && e.byName[e.heap[ref].name] == ref
    requires PlayMove(e, ref, tx, ty).Success?
    ensures var t, r := e.heap[ref], PlayMove(e, ref, tx, ty).value;
      && Lookup(r, t.name) == Some(t.(x := tx, y := ty))
      && (tx, ty) in GridOf(r) && GridOf(r)[(tx, ty)] == t.(x := tx, y := ty)
      && ((t.x, t.y) != (tx, ty) ==> (t.x, t.y) !in GridOf(r))
      && ((tx, ty) in GridOf(e) ==> GridOf(e)[(tx, ty)].name !in r.byName)
  {
  }

  /** A played move files no new name and leaves the token of every other
      name that survives as it was. */
  lemma PlayMoveNames(e: Engine, ref: Ref, tx: int, ty: int)
    requires Valid(e) && ref < |e.heap| && IsPositionValid(tx, ty)
    requires e.heap[ref].name in e.byName && e.byName[e.heap[ref].name] == ref
    requires PlayMove(e, ref, tx, ty).Success?
    ensures var t, r := e.heap[ref], PlayMove(e, ref, tx, ty).value;
      && r.byName.Keys <= e.byName.Keys
      && (forall n :: n in r.byName && n != t.name ==> Lookup(r, n) == Lookup(e, n))
  {
  }

  /** On a coherent engine a played move changes no cell but the two it
      names. */
  lemma PlayMoveCells(e: Engine, ref: Ref, tx: int, ty: int)
    requires Valid(e) && Coherent(e) && ref < |e.heap| && IsPositionValid(tx, ty)
    requires e.heap[ref].name in e.byName && e.byName[e.heap[ref].name] == ref
    requires PlayMove(e, ref, tx, ty).Success?
    ensures var t, r := e.heap[ref], PlayMove(e, ref, tx, ty).value;
      forall c :: c != (tx, ty) && c != (t.x, t.y) ==>
        (c in GridOf(r) <==> c in GridOf(e)) && (c in GridOf(e) ==> GridOf(r)[c] == GridOf(e)[c])
  {
    var t, r := e.heap[ref], PlayMove(e, ref, tx, ty).value;
    forall c | c != (tx, ty) && c != (t.x, t.y) && c in GridOf(e)
      ensures GridOf(r)[c] == GridOf(e)[c]
    {
      assert e.cells[c] != ref;
      assert r.byName[t.name] == ref;
      assert r.cells[c] == e.cells[c];
      assert r.heap[e.cells[c]] == e.heap[e.cells[c]];
    }
  }

  /** How `HandleMove` reads a move written in the notation: the named
      token, if indexed, is played to the written target when that target
      is among its legal moves. */
  lemma HandleNotation(e: Engine, name: string, x: int, y: int)
    requires Valid(e) && ':' !in name && 0 <= x <= IntMax && 0 <= y <= IntMax
    ensures HandleMove(e, Notation(name, x, y)) ==
      if name !in e.byName || (x, y) !in GetPossibleMoves(e, name) then Success(e)
      else PlayMove(e, e.byName[name], x, y)
  {
    NotationParts(name, x, y);
  }

  /** On a coherent engine a move written in the notation always
      completes and leaves the engine coherent; a target outside
      `GetPossibleMoves(name)` (in particular, any target of an unknown
      name) changes nothing. */
  lemma HandleMoveCoherent(e: Engine, name: string, x: int, y: int)
    requires Valid(e) && Coherent(e) && ':' !in name && 0 <= x <= IntMax && 0 <= y <= IntMax
    ensures HandleMove(e, Notation(name, x, y)).Success?
    ensures Coherent(HandleMove(e, Notation(name, x, y)).value)
    ensures (x, y) !in GetPossibleMoves(e, name) ==> HandleMove(e, Notation(name, x, y)) == Success(e)
  {
    HandleNotation(e, name, x, y);
    if name in e.byName && (x, y) in GetPossibleMoves(e, name) {
      PlayMoveCoherent(e, e.byName[name], x, y);
    }
  }

  /** On a coherent engine a move to one of `GetPossibleMoves(name)` puts
      the token on the target, empties the cell it stood on, removes the
      captured token's name, files no new name, keeps every other
      surviving token, and changes no other cell. */
  lemma HandleMoveEffect(e: Engine, name: string, x: int, y: int)
    requires Valid(e) && Coherent(e) && ':' !in name && 0 <= x <= IntMax && 0 <= y <= IntMax
    requires (x, y) in GetPossibleMoves(e, name)
    ensures HandleMove(e, Notation(name, x, y)).Success?
    ensures var r, from := HandleMove(e, Notation(name, x, y)).value, GetTokenPosition(e, name);
      && GetTokenPosition(r, name) == (x, y)
      && (x, y) in GridOf(r) && GridOf(r)[(x, y)].name == name
      && (from != (x, y) ==> from !in GridOf(r))
      && ((x, y) in GridOf(e) ==> GridOf(e)[(x, y)].name !in r.byName)
      && r.byName.Keys <= e.byName.Keys
      && (forall n :: n in r.byName && n != name ==> Lookup(r, n) == Lookup(e, n))
      && (forall c :: c != (x, y) && c != from ==>
            (c in GridOf(r) <==> c in GridOf(e)) && (c in GridOf(e) ==> GridOf(r)[c] == GridOf(e)[c]))
  {
    HandleNotation(e, name, x, y);
    var ref := e.byName[name];
    PlayMoveCoherent(e, ref, x, y);
    PlayMoveEffect(e, ref, x, y);
    PlayMoveNames(e, ref, x, y);
    PlayMoveCells(e, ref, x, y);
  }

  // ---------------------------------------------------------------------
  // Board state

  /** One entry of a board state, read. */
  datatype Entry = Entry(name: string, x: int, y: int)

  /** Reading `name:x,y`: fewer than two `:`-parts, coordinates that are
      not numbers, or fewer than two `,`-parts throw. */
  function ParseEntry(text: string): (r: Result<Entry>)
    ensures r.Success? ==> ':' !in r.value.name && 0 <= r.value.x <= IntMax && 0 <= r.value.y <= IntMax
    ensures CountChar(text, ':') == 0 ==> r == Failure(Malformed)
  {
    var parts := Split(text, ':');
    if |parts| < 2 then Failure(Malformed)
    else
      var coords := Split(parts[1], ',');
      if ParseInt(coords[0]).None? || |coords| < 2 || ParseInt(coords[1]).None? then Failure(Malformed)
      else Success(Entry(parts[0], ParseInt(coords[0]).value, ParseInt(coords[1]).value))
  }

  /** Reading back what the notation writes gives the entry written. */
  lemma ParseEntryNotation(name: string, x: int, y: int)
    requires ':' !in name && 0 <= x <= IntMax && 0 <= y <= IntMax
    ensures ParseEntry(Notation(name, x, y)) == Success(Entry(name, x, y))
  {
    NotationParts(name, x, y);
  }

  /** One entry of `HandleBoardState` as the loop body is written: a known
      token gets the new coordinates, an unknown name gets a fresh token of
      "Player 1" with no move offsets, and the token is put on the cell
      (a cell off the board throws). A known token's previous cell keeps
      pointing at it. */
  function PlaceEntryAsWritten(e: Engine, en: Entry): (r: Result<Engine>)
    requires Valid(e)
    ensures r.Success? ==> Valid(r.value)
    ensures r.Failure? <==> !IsPositionValid(en.x, en.y)
  {
    if !IsPositionValid(en.x, en.y) then Failure(OutOfBoard)
    else if en.name in e.byName then
      var ref := e.byName[en.name];
      Success(Engine(e.heap[ref := e.heap[ref].(x := en.x, y := en.y)], e.cells[(en.x, en.y) := ref], e.byName))
    else
      var ref := |e.heap|;
      var t := Token(en.name, en.x, en.y, Search.Player1, []);
      Success(Engine(e.heap + [t], e.cells[(en.x, en.y) := ref], e.byName[en.name := ref]))
  }

  /** One entry of `HandleBoardState` with the known token's previous cell
      emptied first, as a move does. */
  function PlaceEntry(e: Engine, en: Entry): (r: Result<Engine>)
    requires Valid(e)
    ensures r.Success? ==> Valid(r.value)
    ensures r.Failure? <==> !IsPositionValid(en.x, en.y)
  {
    if !IsPositionValid(en.x, en.y) then Failure(OutOfBoard)
    else if en.name in e.byName then
      var ref := e.byName[en.name];
      var from := (e.heap[ref].x, e.heap[ref].y);
      var cleared := if from in e.cells && e.cells[from] == ref then e.cells - {from} else e.cells;
      Success(Engine(e.heap[ref := e.heap[ref].(x := en.x, y := en.y)], cleared[(en.x, en.y) := ref], e.byName))
    else
      var ref := |e.heap|;
      var t := Token(en.name, en.x, en.y, Search.Player1, []);
      Success(Engine(e.heap + [t], e.cells[(en.x, en.y) := ref], e.byName[en.name := ref]))
  }

  /** An entry on a board cell puts the named token there with those
      coordinates; a new name gets a "Player 1" token with no move offsets;
      a known name keeps its owner and offsets; no other name changes. */
  lemma PlaceEntryEffect(e: Engine, en: Entry)
    requires Valid(e) && IsPositionValid(en.x, en.y)
    ensures var r := PlaceEntry(e, en).value;
      && r.byName.Keys == e.byName.Keys + {en.name}
      && Lookup(r, en.name).Some?
      && Lookup(r, en.name).value.x == en.x && Lookup(r, en.name).value.y == en.y
      && (en.x, en.y) in GridOf(r) && GridOf(r)[(en.x, en.y)] == Lookup(r, en.name).value
      && (en.name !in e.byName ==> Lookup(r, en.name).value == Token(en.name, en.x, en.y, Search.Player1, []))
      && (en.name in e.byName ==>
            Lookup(r, en.name).value.player == Lookup(e, en.name).value.player
            && Lookup(r, en.name).value.offsets == Lookup(e, en.name).value.offsets)
      && (forall n :: n in e.byName && n != en.name ==> Lookup(r, n) == Lookup(e, n))
  {
  }

  /** The entry as written has the same effect on the named token and the
      index as the corrected one, but it empties no tile: every tile other
      than the entry's cell keeps its reference, the named token's old one
      included. */
  lemma PlaceEntryAsWrittenEffect(e: Engine, en: Entry)
    requires Valid(e) && IsPositionValid(en.x, en.y)
    ensures var r := PlaceEntryAsWritten(e, en).value;
      && r.byName.Keys == e.byName.Keys + {en.name}
      && Lookup(r, en.name).Some?
      && Lookup(r, en.name).value.x == en.x && Lookup(r, en.name).value.y == en.y
      && (en.x, en.y) in GridOf(r) && GridOf(r)[(en.x, en.y)] == Lookup(r, en.name).value
      && (en.name !in e.byName ==> Lookup(r, en.name).value == Token(en.name, en.x, en.y, Search.Player1, []))
      && (en.name in e.byName ==>
            Lookup(r, en.name).value.player == Lookup(e, en.name).value.player
            && Lookup(r, en.name).value.offsets == Lookup(e, en.name).value.offsets)
      && (forall n :: n in e.byName && n != en.name ==> Lookup(r, n) == Lookup(e, n))
      && (forall c :: c in e.cells && c != (en.x, en.y) ==> c in r.cells && r.cells[c] == e.cells[c])
  {
  }

  /** Placing an entry keeps a coherent engine coherent. */
  lemma PlaceEntryCoherent(e: Engine, en: Entry)
    requires Valid(e) && Coherent(e) && IsPositionValid(en.x, en.y)
    ensures Coherent(PlaceEntry(e, en).value)
  {
    var r := PlaceEntry(e, en).value;
    if en.name in e.byName {
      var ref := e.byName[en.name];
      forall c | c in r.cells && c != (en.x, en.y)
        ensures var u := r.heap[r.cells[c]];
          (u.x, u.y) == c && u.name in r.byName && r.byName[u.name] == r.cells[c]
      {
        assert r.cells[c] == e.cells[c] != ref;
      }
    }
  }

  /** One "Player 1" token `A` on cell (0, 0), as `new Engine` builds it. */
  function LoneToken(): Engine {
    Engine([Token("A", 0, 0, Search.Player1, [])], map[(0, 0) := 0], map["A" := 0])
  }

  /** `new Engine` with the one token builds exactly that engine. */
  lemma LoneTokenBuilt()
    ensures NewEngine([Token("A", 0, 0, Search.Player1, [])]) == Success(LoneToken())
  {
    var t := Token("A", 0, 0, Search.Player1, []);
    var e0 := Engine([], map[], map[]);
    assert AddOne(e0, t) == LoneToken();
    assert AddTokens(e0, [t]) == AddTokens(AddOne(e0, t), []);
  }

  /** The entry `A:1,1` as written leaves `A` on both (0, 0) and (1, 1):
      the engine stops being coherent, and a later `HandleMove` of `A`
      would leave a stale `A` behind. */
  lemma PlaceEntryAsWrittenDuplicates()
    ensures Coherent(LoneToken())
    ensures var r := PlaceEntryAsWritten(LoneToken(), Entry("A", 1, 1));
      && r.Success?
      && r.value.cells == map[(0, 0) := 0, (1, 1) := 0]
      && !Coherent(r.value)
  {
    var r := PlaceEntryAsWritten(LoneToken(), Entry("A", 1, 1)).value;
    assert r.heap[r.cells[(0, 0)]].x == 1;
  }

  /** The corrected entry `A:1,1` moves `A` to (1, 1) alone. */
  lemma PlaceEntryMovesOnce()
    ensures var r := PlaceEntry(LoneToken(), Entry("A", 1, 1));
      && r.Success?
      && r.value.cells == map[(1, 1) := 0]
      && Coherent(r.value)
  {
    var r := PlaceEntry(LoneToken(), Entry("A", 1, 1)).value;
    assert r.cells == (map[(0, 0) := 0] - {(0, 0)})[(1, 1) := 0];
  }

  /** Scanning cells that are all empty adds no entry. */
  lemma {:induction false} EntriesSkipEmpty(e: Engine, j: nat, k: nat)
    requires Valid(e) && j <= k <= CellCount
    requires forall i :: j <= i < k ==> CellAt(i) !in e.cells
    ensures Entries(e, k) == Entries(e, j)
    decreases k
  {
    if j < k {
      EntriesSkipEmpty(e, j, k - 1);
    }
  }

  /** The scan over an engine whose tiles (0, 0) and (1, 1) both hold
      the token `A` at (1, 1) writes its entry twice. */
  lemma StaleEntries(e: Engine)
    requires Valid(e) && e.heap == [Token("A", 1, 1, Search.Player1, [])]
    requires e.cells == map[(0, 0) := 0, (1, 1) := 0]
    ensures Entries(e, CellCount) == [Notation("A", 1, 1), Notation("A", 1, 1)]
  {
    forall i | 1 <= i < 6 ensures CellAt(i) !in e.cells {
    }
    forall i | 7 <= i < CellCount ensures CellAt(i) !in e.cells {
    }
    EntriesSkipEmpty(e, 1, 6);
    EntriesSkipEmpty(e, 7, CellCount);
  }

  /** After the entry `A:1,1` as written, the board state lists `A:1,1`
      twice, once for each tile that holds it. */
  lemma StaleTileListedTwice()
    ensures var r := PlaceEntryAsWritten(LoneToken(), Entry("A", 1, 1));
      r.Success? && GetBoardState(r.value) == "A:1,1;A:1,1"
  {
    var r := PlaceEntryAsWritten(LoneToken(), Entry("A", 1, 1)).value;
    assert r.cells == map[(0, 0) := 0, (1, 1) := 0];
    StaleEntries(r);
    GetBoardStateIsJoin(r);
    var a := Notation("A", 1, 1);
    assert [a, a][1..] == [a];
    assert a == "A:1,1" by {
      assert NatToString(1) == "1";
    }
  }

  /** The loop of `HandleBoardState` over its entries, with the loop body
      as written; the first entry that throws ends it. */
  function ApplyAll(e: Engine, entries: seq<string>): (r: Result<Engine>)
    requires Valid(e)
    ensures r.Success? ==> Valid(r.value)
    decreases |entries|
  {
    if entries == [] then Success(e)
    else
      var en :- ParseEntry(entries[0]);
      var e' :- PlaceEntryAsWritten(e, en);
      ApplyAll(e', entries[1..])
  }

  /** `HandleBoardState(boardState)`: the entries between the `;`s, in
      order. */
  function HandleBoardState(e: Engine, state: string): (r: Result<Engine>)
    requires Valid(e)
    ensures r.Success? ==> Valid(r.value)
    ensures state == "" ==> r == Failure(Malformed)
  {
    ApplyAll(e, Split(state, ';'))
  }

  /** The loop as written never empties a tile: every tile occupied before
      is occupied afterwards. */
  lemma {:induction false} ApplyAllKeepsTiles(e: Engine, entries: seq<string>)
    requires Valid(e)
    ensures ApplyAll(e, entries).Success? ==> e.cells.Keys <= ApplyAll(e, entries).value.cells.Keys
    decreases |entries|
  {
    if entries != [] && ParseEntry(entries[0]).Success? {
      var en := ParseEntry(entries[0]).value;
      if IsPositionValid(en.x, en.y) {
        PlaceEntryAsWrittenEffect(e, en);
        ApplyAllKeepsTiles(PlaceEntryAsWritten(e, en).value, entries[1..]);
      }
    }
  }

  /** The state `A:1,1` given to the engine built from `A` at (0, 0)
      leaves `A` on both tiles. */
  lemma HandleBoardStateDuplicates()
    ensures var r := HandleBoardState(LoneToken(), "A:1,1");
      && r == PlaceEntryAsWritten(LoneToken(), Entry("A", 1, 1))
      && r.Success? && r.value.cells == map[(0, 0) := 0, (1, 1) := 0]
  {
    var a := Notation("A", 1, 1);
    assert a == "A:1,1" by {
      assert NatToString(1) == "1";
    }
    SplitWithoutSeparator(a, ';');
    ParseEntryNotation("A", 1, 1);
    PlaceEntryAsWrittenDuplicates();
  }

  /** The loop with the corrected entry, which empties the named token's
      previous tile. */
  function ApplyAllCorrected(e: Engine, entries: seq<string>): (r: Result<Engine>)
    requires Valid(e)
    ensures r.Success? ==> Valid(r.value)
    decreases |entries|
  {
    if entries == [] then Success(e)
    else
      var en :- ParseEntry(entries[0]);
      var e' :- PlaceEntry(e, en);
      ApplyAllCorrected(e', entries[1..])
  }

  /** `HandleBoardState` with the corrected entry. */
  function HandleBoardStateCorrected(e: Engine, state: string): (r: Result<Engine>)
    requires Valid(e)
    ensures r.Success? ==> Valid(r.value)
    ensures state == "" ==> r == Failure(Malformed)
  {
    ApplyAllCorrected(e, Split(state, ';'))
  }

  /** The corrected loop keeps a coherent engine coherent. */
  lemma {:induction false} ApplyAllCorrectedCoherent(e: Engine, entries: seq<string>)
    requires Valid(e) && Coherent(e)
    ensures ApplyAllCorrected(e, entries).Success? ==> Coherent(ApplyAllCorrected(e, entries).value)
    decreases |entries|
  {
    if entries != [] && ParseEntry(entries[0]).Success? {
      var en := ParseEntry(entries[0]).value;
      if IsPositionValid(en.x, en.y) {
        PlaceEntryCoherent(e, en);
        ApplyAllCorrectedCoherent(PlaceEntry(e, en).value, entries[1..]);
      }
    }
  }

  /** The notation of every occupied cell among the first `k` of the scan
      `GetBoardState` makes (row `i` outer, column `j` inner). */
  function Entries(e: Engine, k: nat): (r: seq<string>)
    requires Valid(e) && k <= CellCount
    ensures |r| <= k
  {
    if k == 0 then []
    else
      var c := CellAt(k - 1);
      if c in e.cells then
        var t := e.heap[e.cells[c]];
        Entries(e, k - 1) + [Notation(t.name, t.x, t.y)]
      else Entries(e, k - 1)
  }

  /** The texts, each followed by `;`. */
  function Terminated(texts: seq<string>): string {
    if texts == [] then "" else Terminated(texts[..|texts| - 1]) + texts[|texts| - 1] + ";"
  }

  /** `GetBoardState()`: `name:x,y;` for every occupied cell in scan order,
      with the trailing `;`s trimmed. */
  function GetBoardState(e: Engine): (r: string)
    requires Valid(e)
    ensures |r| == 0 || r[|r| - 1] != ';'
    ensures e.cells == map[] ==> r == ""
  {
    EntriesOfEmpty(e, CellCount);
    TrimEnd(Terminated(Entries(e, CellCount)), ';')
  }

  /** Joining one more part appends a separator and the part. */
  lemma {:induction false} JoinSnoc(parts: seq<string>, last: string, sep: char)
    requires |parts| >= 1
    ensures Join(parts + [last], sep) == Join(parts, sep) + [sep] + last
    decreases |parts|
  {
    if |parts| == 1 {
      assert (parts + [last])[1..] == [last];
    } else {
      assert (parts + [last])[1..] == parts[1..] + [last];
      JoinSnoc(parts[1..], last, sep);
    }
  }

  /** Terminating every text is joining them and adding one more `;`. */
  lemma {:induction false} TerminatedIsJoin(texts: seq<string>)
    requires |texts| >= 1
    ensures Terminated(texts) == Join(texts, ';') + ";"
    decreases |texts|
  {
    var init := texts[..|texts| - 1];
    if |texts| > 1 {
      TerminatedIsJoin(init);
      JoinSnoc(init, texts[|texts| - 1], ';');
      assert init + [texts[|texts| - 1]] == texts;
    }
  }

  /** Trimming the `;` after a text that does not end in `;` gives the text. */
  lemma TrimOneSeparator(s: string)
    requires |s| >= 1 && s[|s| - 1] != ';'
    ensures TrimEnd(s + ";", ';') == s
  {
    var r := TrimEnd(s + ";", ';');
    assert (s + ";")[|s| - 1] == s[|s| - 1];
  }

  /** No token on the grid has a `:` or a `;` in its name, so its
      notation reads back. */
  predicate PlainNames(e: Engine)
    requires Valid(e)
  {
    forall c :: c in e.cells ==> ':' !in e.heap[e.cells[c]].name && ';' !in e.heap[e.cells[c]].name
  }

  /** `text` is one entry of a board state that the engine already shows:
      it holds no `;`, reads as an entry, and placing it changes nothing. */
  predicate Restates(e: Engine, text: string)
    requires Valid(e)
  {
    ';' !in text && ParseEntry(text).Success? && PlaceEntryAsWritten(e, ParseEntry(text).value) == Success(e)
  }

  /** An entry that restates the engine names a known token already on the
      entry's cell, so the corrected entry changes nothing either. */
  lemma RestatesCorrected(e: Engine, text: string)
    requires Valid(e) && Restates(e, text)
    ensures PlaceEntry(e, ParseEntry(text).value) == Success(e)
  {
    var en := ParseEntry(text).value;
    var ref := e.byName[en.name];
    assert e.heap[ref].(x := en.x, y := en.y) == PlaceEntryAsWritten(e, en).value.heap[ref];
    assert (en.x, en.y) in e.cells && e.cells[(en.x, en.y)] == ref by {
      assert e.cells[(en.x, en.y) := ref] == e.cells;
    }
    assert (e.cells - {(en.x, en.y)})[(en.x, en.y) := ref] == e.cells;
  }

  /** The notation of an occupied cell of a coherent engine restates it. */
  lemma CellRestates(e: Engine, c: Pos)
    requires Valid(e) && Coherent(e) && PlainNames(e) && c in e.cells
    ensures var t := e.heap[e.cells[c]]; Restates(e, Notation(t.name, t.x, t.y))
  {
    var ref := e.cells[c];
    var t := e.heap[ref];
    ParseEntryNotation(t.name, t.x, t.y);
    DigitsHaveNoSeparator(IntToString(t.x), ';');
    DigitsHaveNoSeparator(IntToString(t.y), ';');
    assert e.heap[ref := t] == e.heap;
    assert e.cells[c := ref] == e.cells;
  }

  /** Every entry of a coherent engine's board state restates it. */
  lemma {:induction false} EntriesRestate(e: Engine, k: nat)
    requires Valid(e) && Coherent(e) && PlainNames(e) && k <= CellCount
    ensures forall i :: 0 <= i < |Entries(e, k)| ==> Restates(e, Entries(e, k)[i])
    decreases k
  {
    if k > 0 {
      EntriesRestate(e, k - 1);
      var c := CellAt(k - 1);
      if c in e.cells {
        CellRestates(e, c);
        var t := e.heap[e.cells[c]];
        var prev, es := Entries(e, k - 1), Entries(e, k);
        assert es == prev + [Notation(t.name, t.x, t.y)];
        forall i | 0 <= i < |es| ensures Restates(e, es[i]) {
          if i < |prev| {
            assert es[i] == prev[i];
          }
        }
      }
    }
  }

  /** Entries that each restate the engine leave it as it is. */
  lemma {:induction false} ApplyAllRestating(e: Engine, entries: seq<string>)
    requires Valid(e) && forall i :: 0 <= i < |entries| ==> Restates(e, entries[i])
    ensures ApplyAll(e, entries) == Success(e)
    decreases |entries|
  {
    if entries != [] {
      assert Restates(e, entries[0]);
      assert forall i :: 0 <= i < |entries[1..]| ==> entries[1..][i] == entries[i + 1];
      ApplyAllRestating(e, entries[1..]);
    }
  }

  /** Entries that each restate the engine leave it as it is under the
      corrected loop too. */
  lemma {:induction false} ApplyAllCorrectedRestating(e: Engine, entries: seq<string>)
    requires Valid(e) && forall i :: 0 <= i < |entries| ==> Restates(e, entries[i])
    ensures ApplyAllCorrected(e, entries) == Success(e)
    decreases |entries|
  {
    if entries != [] {
      RestatesCorrected(e, entries[0]);
      assert forall i :: 0 <= i < |entries[1..]| ==> entries[1..][i] == entries[i + 1];
      ApplyAllCorrectedRestating(e, entries[1..]);
    }
  }

  /** A cell in the scan's first `k` that is occupied yields an entry. */
  lemma {:induction false} EntriesNonEmpty(e: Engine, k: nat, c: Pos)
    requires Valid(e) && k <= CellCount && c in e.cells && CellIndex(c) < k
    ensures |Entries(e, k)| >= 1
    decreases k
  {
    if CellAt(k - 1) != c {
      EntriesNonEmpty(e, k - 1, c);
    }
  }

  /** Every entry ends in a digit: the last digit of its column. */
  lemma {:induction false} EntriesEndInDigit(e: Engine, k: nat)
    requires Valid(e) && k <= CellCount
    ensures forall i :: 0 <= i < |Entries(e, k)| ==>
      |Entries(e, k)[i]| >= 1 && IsDigit(Entries(e, k)[i][|Entries(e, k)[i]| - 1])
    decreases k
  {
    if k > 0 {
      EntriesEndInDigit(e, k - 1);
      var c := CellAt(k - 1);
      if c in e.cells {
        var t := e.heap[e.cells[c]];
        var prev, es := Entries(e, k - 1), Entries(e, k);
        var last := Notation(t.name, t.x, t.y);
        assert es == prev + [last];
        var ys := IntToString(t.y);
        assert last == (t.name + ":" + IntToString(t.x) + ",") + ys;
        assert last[|last| - 1] == ys[|ys| - 1];
        forall i | 0 <= i < |es| ensures |es[i]| >= 1 && IsDigit(es[i][|es[i]| - 1]) {
          if i < |prev| {
            assert es[i] == prev[i];
          }
        }
      }
    }
  }

  /** The board state is the entries joined by `;`. */
  lemma GetBoardStateIsJoin(e: Engine)
    requires Valid(e)
    ensures GetBoardState(e) == Join(Entries(e, CellCount), ';')
  {
    var es := Entries(e, CellCount);
    if es != [] {
      TerminatedIsJoin(es);
      EntriesEndInDigit(e, CellCount);
      var last := es[|es| - 1];
      if |es| > 1 {
        JoinSnoc(es[..|es| - 1], last, ';');
        assert es[..|es| - 1] + [last] == es;
      }
      TrimOneSeparator(Join(es, ';'));
    }
  }

  /** A coherent engine with tokens whose names hold no `:` or `;` reads
      its own board state back unchanged. */
  lemma BoardStateRoundTrip(e: Engine)
    requires Valid(e) && Coherent(e) && PlainNames(e) && e.cells != map[]
    ensures HandleBoardState(e, GetBoardState(e)) == Success(e)
  {
    var es := Entries(e, CellCount);
    GetBoardStateIsJoin(e);
    EntriesRestate(e, CellCount);
    var c :| c in e.cells;
    EntriesNonEmpty(e, CellCount, c);
    SplitJoin(es, ';');
    ApplyAllRestating(e, es);
  }

  /** The corrected reading gives the same round trip. */
  lemma BoardStateRoundTripCorrected(e: Engine)
    requires Valid(e) && Coherent(e) && PlainNames(e) && e.cells != map[]
    ensures HandleBoardStateCorrected(e, GetBoardState(e)) == Success(e)
  {
    var es := Entries(e, CellCount);
    GetBoardStateIsJoin(e);
    EntriesRestate(e, CellCount);
    var c :| c in e.cells;
    EntriesNonEmpty(e, CellCount, c);
    SplitJoin(es, ';');
    ApplyAllCorrectedRestating(e, es);
  }

  /** An empty board's state is the empty text, which `HandleBoardState`
      does not accept. */
  lemma EmptyBoardState(e: Engine)
    requires Valid(e) && e.cells == map[]
    ensures GetBoardState(e) == ""
    ensures HandleBoardState(e, GetBoardState(e)) == Failure(Malformed)
  {
  }

  lemma {:induction false} EntriesOfEmpty(e: Engine, k: nat)
    requires Valid(e) && k <= CellCount
    ensures e.cells == map[] ==> Entries(e, k) == []
    decreases k
  {
    if k > 0 {
      EntriesOfEmpty(e, k - 1);
    }
  }

  // ---------------------------------------------------------------------
  // Best move

  /** The board `GetBestMove` searches: a copy of the engine's board. */
  function TestBoard(e: Engine): (b: Board)
    requires Valid(e)
    ensures TokensInBounds(b)
  {
    CreateCopy(BoardOf(e))
  }

  /** On a coherent engine the copy shows exactly the engine's grid. */
  lemma TestBoardExact(e: Engine)
    requires Valid(e) && Coherent(e)
    ensures TestBoard(e).tiles == GridOf(e)
  {
    CreateCopyExact(BoardOf(e));
  }

  /** The moves `GetBestMove` weighs: the player's legal moves on the copy,
      in scan order. */
  function Candidates(e: Engine, p: Option<string>): seq<Move>
    requires Valid(e)
  {
    FindAllLegalMoves(TestBoard(e), p)
  }

  /** A move as `GetBestMove` writes it: `name:x,y` of the target. */
  function MoveNotation(m: Move): string {
    Notation(m.token.name, m.to.0, m.to.1)
  }

  /** `GetBestMove(player, depth)` as written: with no legal move it
      answers null; otherwise it starts from the first move and alpha at
      `int.MinValue`, but its loop scores the moves from the second on, so
      the first move is kept only when no later move beats
      `int.MinValue`. */
  function GetBestMoveAsWritten(e: Engine, p: Option<string>, depth: nat): (r: Option<string>)
    requires Valid(e) && depth >= 1
    ensures r.None? <==> Candidates(e, p) == []
  {
    var moves := Candidates(e, p);
    if moves == [] then None
    else Some(MoveNotation(moves[Search.SeededIndex(TestBoard(e), p, 1, depth - 1)]))
  }

  /** `GetBestMove` with its loop starting at the first move, so every
      legal move is scored. */
  function GetBestMove(e: Engine, p: Option<string>, depth: nat): (r: Option<string>)
    requires Valid(e) && depth >= 1
    ensures r.None? <==> Candidates(e, p) == []
  {
    var moves := Candidates(e, p);
    if moves == [] then None
    else Some(MoveNotation(moves[Search.SeededIndex(TestBoard(e), p, 0, depth - 1)]))
  }

  /** When there is a legal move, the corrected `GetBestMove` answers the
      first legal move of greatest unpruned value. */
  lemma GetBestMoveIsBest(e: Engine, p: Option<string>, depth: nat)
    requires Valid(e) && depth >= 1 && Candidates(e, p) != []
    ensures exists k: nat ::
      && GameTree.FirstBestFrom(Search.RootValues(TestBoard(e), p, depth - 1), 0, k)
      && GetBestMove(e, p, depth) == Some(MoveNotation(Candidates(e, p)[k]))
  {
    var k := Search.SeededIndex(TestBoard(e), p, 0, depth - 1);
    GameTree.SeededFullScan(Search.RootValues(TestBoard(e), p, depth - 1), k);
  }

  /** When there is a legal move, the `GetBestMove` as written answers the
      first move when every later move is worth `int.MinValue`, and
      otherwise the first move of greatest value among the later ones,
      whatever the first is worth. */
  lemma GetBestMoveAsWrittenSkipsFirst(e: Engine, p: Option<string>, depth: nat)
    requires Valid(e) && depth >= 1 && Candidates(e, p) != []
    ensures exists k: nat ::
      && GameTree.SeededChoice(Search.RootValues(TestBoard(e), p, depth - 1), 1, k)
      && GetBestMoveAsWritten(e, p, depth) == Some(MoveNotation(Candidates(e, p)[k]))
  {
    var k := Search.SeededIndex(TestBoard(e), p, 1, depth - 1);
    assert GetBestMoveAsWritten(e, p, depth) == Some(MoveNotation(Candidates(e, p)[k]));
  }
}
