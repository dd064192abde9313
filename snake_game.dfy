/** A model of the game-state engine of a grid snake game: a snake of cells
    (head first) moving on a GridSize x GridSize board, a fruit that makes it
    grow, wall and self collision, the reversal-rejecting heading update and
    the restart. */
module Snake {

  /** Cells per side of the board. */
  const GridSize: int := 25

  /** A board position; equality is by value, like java.awt.Point. */
  datatype Cell = Cell(x: int, y: int)

  /** Where a fresh snake starts (integer division, as in SnakeGame.java). */
  const Center: Cell := Cell(GridSize / 2, GridSize / 2)

  /** The four headings, with the integer codes SnakeGame.java stores. */
  datatype Direction = Up | Right | Down | Left {

    function Value(): (v: int)
      ensures 0 <= v < 4
    {
      match this
      case Up => 0
      case Right => 1
      case Down => 2
      case Left => 3
    }

    /** The 180-degree reverse: its code is two steps round the compass. */
    function Opposite(): (o: Direction)
      ensures o.Value() == (Value() + 2) % 4
    {
      match this
      case Up => Down
      case Right => Left
      case Down => Up
      case Left => Right
    }
  }

  /** The four codes are distinct, so a code names a single heading. */
  lemma ValueInjective(a: Direction, b: Direction)
    ensures a.Value() == b.Value() <==> a == b
  {
  }

  /** A key event as far as the engine cares: one of the four arrows, or
      anything else (which the engine ignores). */
  datatype Key = Arrow(d: Direction) | OtherKey

  predicate InBounds(c: Cell) {
    0 <= c.x < GridSize && 0 <= c.y < GridSize
  }

  predicate AllInBounds(s: seq<Cell>) {
    forall i :: 0 <= i < |s| ==> InBounds(s[i])
  }

  predicate NoDuplicates(s: seq<Cell>) {
    forall i, j :: 0 <= i < |s| && 0 <= j < |s| && i != j ==> s[i] != s[j]
  }

  /** The shape a living snake keeps: non-empty, on the board, no cell twice. */
  predicate WellFormed(s: seq<Cell>) {
    |s| >= 1 && AllInBounds(s) && NoDuplicates(s)
  }

  /** The cell one unit away from `c` in direction `d`; y grows downwards. */
  function Step(c: Cell, d: Direction): (r: Cell)
    ensures (d == Up || d == Down) ==> r.x == c.x && (r.y - c.y == 1 || c.y - r.y == 1)
    ensures (d == Left || d == Right) ==> r.y == c.y && (r.x - c.x == 1 || c.x - r.x == 1)
    ensures r != c
  {
    match d
    case Up => Cell(c.x, c.y - 1)
    case Right => Cell(c.x + 1, c.y)
    case Down => Cell(c.x, c.y + 1)
    case Left => Cell(c.x - 1, c.y)
  }

  /** Moving one step and then one step the opposite way comes back. */
  lemma StepOpposite(c: Cell, d: Direction)
    ensures Step(Step(c, d), d.Opposite()) == c
  {
  }

  /** The snake after a tick that eats: the new head is added, nothing leaves. */
  function Grow(s: seq<Cell>, h: Cell): (r: seq<Cell>)
    ensures |r| == |s| + 1 && r[0] == h && r[1..] == s
    ensures forall c :: c in r <==> c == h || c in s
  {
    [h] + s
  }

  /** The snake after a tick that does not eat: the new head is added and
      the tail cell leaves. */
  function Translate(s: seq<Cell>, h: Cell): (r: seq<Cell>)
    requires |s| >= 1
    ensures |r| == |s| && r[0] == h && r[1..] == s[..|s| - 1]
    ensures forall c :: c in r ==> c == h || c in s
  {
    [h] + s[..|s| - 1]
  }

  /** The game-over test applied after the grow/translate step: the head is
      off the board or sits on one of the other cells. */
  predicate Collides(s: seq<Cell>)
    requires |s| >= 1
    ensures !Collides(s) <==> InBounds(s[0]) && forall i :: 1 <= i < |s| ==> s[i] != s[0]
    ensures WellFormed(s) ==> !Collides(s)
  {
    !InBounds(s[0]) || s[0] in s[1..]
  }

  /** The heading after a request: a reversal is silently ignored, anything
      else is taken. */
  function Turn(current: Direction, requested: Direction): (r: Direction)
    ensures r != current.Opposite()
    ensures requested == current.Opposite() ==> r == current
    ensures requested != current.Opposite() ==> r == requested
  {
    if requested == current.Opposite() then current else requested
  }

  /** Asking for the same heading twice is the same as asking once. */
  lemma TurnIdempotent(current: Direction, requested: Direction)
    ensures Turn(Turn(current, requested), requested) == Turn(current, requested)
  {
  }

  /** `draws` is a finite prefix of the random stream createFruit consumes:
      every draw is a board cell, and one of them is free, so the retry loop
      stops. */
  predicate HasFreeDraw(draws: seq<Cell>, body: seq<Cell>) {
    exists k :: 0 <= k < |draws| && draws[k] !in body
  }

  /** `f` is what createFruit returns on `draws`: the first draw that is off
      `body`. */
  predicate FirstFreeDraw(draws: seq<Cell>, body: seq<Cell>, f: Cell) {
    exists k :: 0 <= k < |draws| && draws[k] == f && draws[k] !in body &&
                forall j :: 0 <= j < k ==> draws[j] in body
  }

  /** For a translating tick, alive or dead, the game is over exactly when
      the new head leaves the board or lands on a cell that is not the
      vacated tail. */
  lemma TranslateCollidesIff(s: seq<Cell>, h: Cell)
    requires |s| >= 1
    ensures Collides(Translate(s, h)) <==> !InBounds(h) || h in s[..|s| - 1]
  {
  }

  /** Stepping into the cell the tail vacates in the same tick is not a
      collision. */
  lemma EnterVacatedTail(s: seq<Cell>, d: Direction)
    requires WellFormed(s)
    requires Step(s[0], d) == s[|s| - 1]
    ensures !Collides(Translate(s, Step(s[0], d)))
  {
  }

  /** A translating tick that does not collide keeps the snake well formed
      and the fruit off it. */
  lemma TranslatePreserves(s: seq<Cell>, h: Cell, fruit: Cell)
    requires WellFormed(s) && fruit !in s
    requires h != fruit
    requires !Collides(Translate(s, h))
    ensures WellFormed(Translate(s, h))
    ensures fruit !in Translate(s, h)
  {
  }

  /** Eating an in-bounds fruit that is off the snake never collides and
      keeps the snake well formed. */
  lemma GrowPreserves(s: seq<Cell>, fruit: Cell)
    requires WellFormed(s) && InBounds(fruit) && fruit !in s
    ensures !Collides(Grow(s, fruit))
    ensures WellFormed(Grow(s, fruit))
  {
  }

  /** A row-major number for a board cell, used only to count cells. */
  function CellCode(c: Cell): (r: int) {
    c.y * GridSize + c.x
  }

  /** The codes of the cells of `s`. */
  function Codes(s: seq<Cell>): (r: set<int>) {
    if s == [] then {} else {CellCode(s[0])} + Codes(s[1..])
  }

  lemma {:induction false} CodesBounded(s: seq<Cell>)
    requires AllInBounds(s)
    ensures forall v :: v in Codes(s) ==> 0 <= v < GridSize * GridSize
  {
    if s != [] {
      CodesBounded(s[1..]);
    }
  }

  /** Distinct board cells have distinct codes, so a duplicate-free body of
      n cells has n codes, none of them the code of a cell off the body. */
  lemma {:induction false} CodesCount(s: seq<Cell>, c: Cell)
    requires AllInBounds(s) && NoDuplicates(s) && InBounds(c) && c !in s
    ensures |Codes(s)| == |s|
    ensures CellCode(c) !in Codes(s)
  {
    if s != [] {
      CodesCount(s[1..], c);
      CodesCount(s[1..], s[0]);
    }
  }

  /** A set of integers drawn from [0, n) has at most n elements. */
  lemma {:induction false} BoundedSetSize(xs: set<int>, n: nat)
    requires forall v :: v in xs ==> 0 <= v < n
    ensures |xs| <= n
  {
    if n > 0 {
      BoundedSetSize(xs - {n - 1}, n - 1);
    } else {
      assert forall v :: v !in xs;
      assert xs == {};
    }
  }

  /** A free board cell exists only while the snake covers fewer than
      GridSize * GridSize cells: on a full board createFruit can never find a
      free draw, so its retry loop would not end. */
  lemma FreeCellNeedsRoom(s: seq<Cell>, c: Cell)
    requires AllInBounds(s) && NoDuplicates(s)
    requires InBounds(c) && c !in s
    ensures |s| < GridSize * GridSize
  {
    CodesBounded(s);
    CodesCount(s, c);
    BoundedSetSize(Codes(s) + {CellCode(c)}, GridSize * GridSize);
  }

  /** So a tick may only eat while the grown snake still leaves a cell free. */
  lemma FreeDrawNeedsRoom(draws: seq<Cell>, s: seq<Cell>)
    requires AllInBounds(draws) && AllInBounds(s) && NoDuplicates(s)
    requires HasFreeDraw(draws, s)
    ensures |s| < GridSize * GridSize
  {
    var k :| 0 <= k < |draws| && draws[k] !in s;
    FreeCellNeedsRoom(s, draws[k]);
  }

  /** The mutable game state: the body (head first), the fruit, the heading
      and whether the tick timer is still running. */
  class SnakeGame {
    var snake: seq<Cell>
    var fruit: Cell
    var direction: Direction
    var alive: bool

    /** The object invariant: there is always a head, the fruit is on the
        board and off the snake, and a living snake is well formed. */
    ghost predicate Valid()
      reads this
    {
      |snake| >= 1 && InBounds(fruit) && fruit !in snake &&
      (alive ==> WellFormed(snake))
    }

    /** The game at start-up: one cell at the centre, heading right. */
    constructor (draws: seq<Cell>)
      requires AllInBounds(draws) && HasFreeDraw(draws, [Center])
      ensures Valid()
      ensures snake == [Center] && direction == Right && alive
      ensures FirstFreeDraw(draws, [Center], fruit)
    {
      snake := [Center];
      direction := Right;
      alive := true;
      new;
      fruit := CreateFruit(draws);
    }

    /** Fruit placement: retry random draws until one is off the snake.
        The result is the first free draw; the snake is not touched. */
    method CreateFruit(draws: seq<Cell>) returns (f: Cell)
      requires AllInBounds(draws) && HasFreeDraw(draws, snake)
      ensures InBounds(f) && f !in snake
      ensures FirstFreeDraw(draws, snake, f)
    {
      var i := 0;
      while draws[i] in snake
        invariant 0 <= i < |draws|
        invariant forall j :: 0 <= j < i ==> draws[j] in snake
        invariant exists k :: i <= k < |draws| && draws[k] !in snake
        decreases |draws| - i
      {
        i := i + 1;
      }
      f := draws[i];
    }

    /** One tick: displace the head, grow (and place a new fruit) or
        translate, then test for collision. */
    method Move(draws: seq<Cell>)
      requires Valid()
      requires AllInBounds(draws)
      requires Step(snake[0], direction) == fruit ==> HasFreeDraw(draws, [fruit] + snake)
      modifies this
      ensures Valid()
      ensures direction == old(direction)
      ensures snake[0] == Step(old(snake)[0], old(direction))
      ensures snake[0] == old(fruit) ==>
                |snake| == |old(snake)| + 1 && snake[1..] == old(snake) &&
                FirstFreeDraw(draws, snake, fruit)
      ensures snake[0] != old(fruit) ==>
                |snake| == |old(snake)| && snake[1..] == old(snake)[..|old(snake)| - 1] &&
                fruit == old(fruit)
      ensures alive == (old(alive) && !Collides(snake))
    {
      var head := snake[0];
      var newHead := Step(head, direction);
      if newHead == fruit {
        if alive {
          GrowPreserves(snake, fruit);
        }
        snake := Grow(snake, newHead);
        fruit := CreateFruit(draws);
      } else {
        if alive && !Collides(Translate(snake, newHead)) {
          TranslatePreserves(snake, newHead, fruit);
        }
        snake := Translate(snake, newHead);
      }
      CheckCollision();
    }

    /** Ends the game when the head is off the board or on the body. */
    method CheckCollision()
      requires |snake| >= 1
      modifies this`alive
      ensures alive == (old(alive) && !Collides(snake))
    {
      if Collides(snake) {
        HandleGameOver();
      }
    }

    /** Stops the tick timer; the play-again prompt is outside the model. */
    method HandleGameOver()
      modifies this`alive
      ensures !alive
    {
      alive := false;
    }

    /** Back to the start-up configuration with a freshly placed fruit. */
    method RestartGame(draws: seq<Cell>)
      requires AllInBounds(draws) && HasFreeDraw(draws, [Center])
      modifies this
      ensures Valid()
      ensures snake == [Center] && direction == Right && alive
      ensures FirstFreeDraw(draws, [Center], fruit)
    {
      snake := [Center];
      fruit := CreateFruit(draws);
      direction := Right;
      alive := true;
    }

    /** The heading update of a key press: each arrow is taken unless it
        reverses the current heading; other keys change nothing. */
    method KeyPressed(key: Key)
      modifies this`direction
      ensures key.Arrow? ==> direction == Turn(old(direction), key.d)
      ensures key.OtherKey? ==> direction == old(direction)
    {
      match key
      case Arrow(Up) =>
        if direction != Down { direction := Up; }
      case Arrow(Right) =>
        if direction != Left { direction := Right; }
      case Arrow(Down) =>
        if direction != Up { direction := Down; }
      case Arrow(Left) =>
        if direction != Right { direction := Left; }
      case OtherKey =>
    }
  }

  /* Scenarios the game is expected to show, derived from the contracts
     above alone. */

  /** A new game, its fruit placed at the first free draw. */
  method NewGame() returns (g: SnakeGame)
    ensures g.Valid() && g.alive && g.snake == [Center] && g.direction == Right
    ensures g.fruit == Cell(0, 0) && fresh(g)
  {
    assert [Cell(0, 0)][0] !in [Center];
    g := new SnakeGame([Cell(0, 0)]);
  }

  method ScenarioHeading() {
    var g := NewGame();
    // A reversal request is ignored, a perpendicular one is taken, twice
    // the same as once.
    g.KeyPressed(Arrow(Left));
    assert g.direction == Right;
    g.KeyPressed(Arrow(Up));
    g.KeyPressed(Arrow(Up));
    assert g.direction == Up;
    g.KeyPressed(OtherKey);
    assert g.direction == Up;
  }

  method ScenarioEat() {
    var g := NewGame();
    // Head at (12,12) heading right, fruit at (13,12).
    g.fruit := Cell(13, 12);
    assert [Cell(0, 0)][0] !in [Cell(13, 12), Center];
    g.Move([Cell(0, 0)]);
    assert g.snake == [Cell(13, 12), Center];
    assert g.alive && g.fruit == Cell(0, 0);
    // Then a plain step right: same length, the tail leaves.
    g.Move([]);
    assert g.snake == [Cell(14, 12), Cell(13, 12)];
    assert g.alive;
  }

  method ScenarioWall() {
    var g := NewGame();
    // Head at (24,12) heading right.
    g.snake := [Cell(24, 12)];
    g.Move([]);
    assert !g.alive;
    assert [Center, Cell(3, 3)][1] !in [Center];
    g.RestartGame([Center, Cell(3, 3)]);
    assert g.snake == [Center] && g.alive && g.direction == Right;
    assert g.fruit == Cell(3, 3);
  }

  method ScenarioVacatedTail() {
    var g := NewGame();
    // Following the tail into the cell it vacates is allowed.
    g.snake := [Cell(5, 5), Cell(6, 5), Cell(6, 6), Cell(5, 6)];
    g.direction := Down;
    g.Move([]);
    assert g.snake == [Cell(5, 6), Cell(5, 5), Cell(6, 5), Cell(6, 6)];
    assert g.alive;
  }

  method ScenarioSelfCollision() {
    var g := NewGame();
    // Entering a body cell that is not the tail ends the game.
    g.snake := [Cell(5, 5), Cell(6, 5), Cell(6, 6), Cell(5, 6), Cell(4, 6)];
    g.direction := Down;
    g.Move([]);
    assert g.snake[0] == Cell(5, 6) == g.snake[4];
    assert !g.alive;
  }

  method ScenarioDoubleTurn() {
    var g := NewGame();
    // The reversal guard compares with the stored heading, not with the
    // heading of the last move: two presses inside one tick (UP, then
    // LEFT) turn a snake moving RIGHT back into its own neck.
    g.snake := [Cell(5, 5), Cell(4, 5), Cell(3, 5)];
    g.KeyPressed(Arrow(Up));
    g.KeyPressed(Arrow(Left));
    assert g.direction == Left;
    g.Move([]);
    assert g.snake == [Cell(4, 5), Cell(5, 5), Cell(4, 5)];
    assert !g.alive;
  }

  method ScenarioDoubleTurnShort() {
    var g := NewGame();
    // With two cells the neck is the tail, which leaves in the same tick:
    // the same two presses reverse the snake and it lives.
    g.snake := [Cell(5, 5), Cell(4, 5)];
    g.KeyPressed(Arrow(Up));
    g.KeyPressed(Arrow(Left));
    g.Move([]);
    assert g.snake == [Cell(4, 5), Cell(5, 5)];
    assert g.alive;
  }
}
