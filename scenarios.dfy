/** Three short games on small maps, proved from the contracts of the maze
    routines: the map 403 walked to a win, the 1x1 map 4 where every move
    is refused, and q pressed before any move. */
module MazeScenarios {
  import opened MazeSpec
  import MapText
  import MazeGame

  /** Map "403": two steps right reach the finish; the start shows VISITED,
      the middle cell EMPTY, the finish cell PLAYER, and the win is set. */
  method WalkToFinish()
  {
    var rows := ["403"];
    assert MapText.Lines(rows) == "403\n";
    var m := MazeGame.Open("403\n", rows, 3);
    assert MapText.Occurs(rows, '4') by { assert rows[0][0] == '4'; }
    assert MapText.Occurs(rows, '3') by { assert rows[0][2] == '3'; }
    assert m.start == Pos(0, 0) && m.finish == Pos(2, 0);
    MazeGame.SameCells(m.cells, [[4, 0, 3]]);
    assert m.State() == WalkStart();
    WalkTwice();
    var consumed, stopped := m.Capture("dd");
    assert consumed == 2 && stopped;
    assert m.player == Pos(2, 0) && m.won && m.quit;
    assert m.cells == [[VISITED, EMPTY, PLAYER]];
  }

  function WalkStart(): Game
  {
    Game(3, 1, [[4, 0, 3]], Pos(0, 0), Pos(0, 0), Pos(2, 0), false, false)
  }

  /** Two presses of d from the start of map "403". */
  lemma WalkTwice()
    ensures Capture(WalkStart(), "dd") ==
              Outcome(WalkStart().(cells := [[VISITED, EMPTY, PLAYER]], player := Pos(2, 0),
                                   won := true, quit := true), 2, true)
  {
    var g0 := WalkStart();
    var g1 := g0.(cells := [[VISITED, PLAYER, 3]], player := Pos(1, 0));
    MazeGame.SameCells(Put(Put(g0.cells, Pos(0, 0), VISITED), Pos(1, 0), PLAYER), g1.cells);
    assert KeyStep(g0, 'd') == g1;
    var g2 := g1.(cells := [[VISITED, EMPTY, PLAYER]], player := Pos(2, 0), won := true);
    MazeGame.SameCells(Put(Put(g1.cells, Pos(1, 0), EMPTY), Pos(2, 0), PLAYER), g2.cells);
    assert KeyStep(g1, 'd') == g2;
    assert "dd"[1..] == "d";
  }

  /** Map "4": every direction is refused at the edges of a 1x1 grid. */
  method OneCell()
  {
    var rows := ["4"];
    assert MapText.Lines(rows) == "4\n";
    var m := MazeGame.Open("4\n", rows, 1);
    assert MapText.Occurs(rows, '4') by { assert rows[0][0] == '4'; }
    assert m.player == Pos(0, 0);
    m.Move(UP);
    m.Move(DOWN);
    m.Move(LEFT);
    m.Move(RIGHT);
    assert m.player == Pos(0, 0);
  }

  /** Quitting before any move sets quit, leaves won clear and selects the
      interrupt message. */
  method QuitAtOnce()
  {
    var rows := ["403"];
    assert MapText.Lines(rows) == "403\n";
    var m := MazeGame.Open("403\n", rows, 3);
    assert MapText.Occurs(rows, '4') by { assert rows[0][0] == '4'; }
    var consumed, stopped := m.Capture("qd");
    assert consumed == 1 && stopped && m.quit && !m.won;
    assert m.player == Pos(0, 0);
    assert Epilogue(m.won) == "Keyboard interrupt! Quitting now...\n";
  }
}
