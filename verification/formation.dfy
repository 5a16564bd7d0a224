/**
 The alien formation a round starts with: three rows of eight aliens, built by
 three counting loops, one per row.
 */
module Formation {
  import opened Geometry
  import opened Sprites

  /** The number of rows in the formation. */
  const Rows: nat := 3

  /** The first X past the last column: the population loops run while `x` is below it. */
  const RowEnd: int := AliensStartCol + AlienSize * AliensPerRow

  /** One population loop: an alien at `x`, then at every `AlienSize` step to the
      right while the column is below `RowEnd`. */
  function Row(x: int, y: int, sprite: Rectangle, points: int): seq<Sprite>
    decreases RowEnd - x
  {
    if x < RowEnd then [CreateAlien(x, y, sprite, points)] + Row(x + AlienSize, y, sprite, points)
    else []
  }

  /** Height, picture and value of each row, top row first. */
  function RowY(r: nat): int { 30 + 25 * r }

  function RowSprite(r: nat): Rectangle {
    if r == 0 then Alien1Sprite else if r == 1 then Alien2Sprite else Alien3Sprite
  }

  function RowPoints(r: nat): int { 30 - 10 * r }

  /** The three rows, top to bottom, in the order they are appended. */
  function InitialAliens(): (aliens: seq<Sprite>)
    ensures |aliens| == Rows * AliensPerRow
  {
    RowShape(0, 30, Alien1Sprite, 30);
    RowShape(0, 55, Alien2Sprite, 20);
    RowShape(0, 80, Alien3Sprite, 10);
    Row(AliensStartCol, 30, Alien1Sprite, 30)
      + Row(AliensStartCol, 55, Alien2Sprite, 20)
      + Row(AliensStartCol, 80, Alien3Sprite, 10)
  }

  /** The loop started at column `k` yields the columns k..7, evenly spaced. */
  lemma {:induction false} RowShape(k: nat, y: int, sprite: Rectangle, points: int)
    requires k <= AliensPerRow
    ensures var row := Row(AliensStartCol + AlienSize * k, y, sprite, points);
      && |row| == AliensPerRow - k
      && forall c :: 0 <= c < |row| ==>
           row[c] == CreateAlien(AliensStartCol + AlienSize * (k + c), y, sprite, points)
    decreases AliensPerRow - k
  {
    var x := AliensStartCol + AlienSize * k;
    if k < AliensPerRow {
      RowShape(k + 1, y, sprite, points);
      assert x + AlienSize == AliensStartCol + AlienSize * (k + 1);
      var tail := Row(x + AlienSize, y, sprite, points);
      var row := Row(x, y, sprite, points);
      assert row == [CreateAlien(x, y, sprite, points)] + tail;
      forall c | 0 <= c < |row|
        ensures row[c] == CreateAlien(AliensStartCol + AlienSize * (k + c), y, sprite, points)
      {
        if c > 0 {
          assert row[c] == tail[c - 1];
        }
      }
    } else {
      assert x == RowEnd;
    }
  }

  /** The formation holds 24 alive aliens; alien `j` sits in row `j / 8` and column
      `j % 8`, at x = 100 + 30 * column, with the row's height, picture and value
      (y = 30, 55, 80 and 30, 20, 10 points from the top). */
  lemma InitialFormation()
    ensures |InitialAliens()| == Rows * AliensPerRow
    ensures forall j :: 0 <= j < |InitialAliens()| ==>
      var a := InitialAliens()[j];
      var r := j / AliensPerRow;
      && a.status
      && a.position == Point(AliensStartCol + AlienSize * (j % AliensPerRow), RowY(r))
      && a.size == RowSprite(r)
      && a.points == RowPoints(r)
  {
    RowShape(0, 30, Alien1Sprite, 30);
    RowShape(0, 55, Alien2Sprite, 20);
    RowShape(0, 80, Alien3Sprite, 10);
    var r0 := Row(AliensStartCol, 30, Alien1Sprite, 30);
    var r1 := Row(AliensStartCol, 55, Alien2Sprite, 20);
    var r2 := Row(AliensStartCol, 80, Alien3Sprite, 10);
    var all := InitialAliens();
    forall j | 0 <= j < |all|
      ensures all[j] == CreateAlien(AliensStartCol + AlienSize * (j % AliensPerRow),
                                    RowY(j / AliensPerRow), RowSprite(j / AliensPerRow),
                                    RowPoints(j / AliensPerRow))
    {
      if j < 8 {
        assert j / AliensPerRow == 0 && j % AliensPerRow == j;
        assert all[j] == r0[j];
      } else if j < 16 {
        assert j / AliensPerRow == 1 && j % AliensPerRow == j - 8;
        assert all[j] == r1[j - 8];
      } else {
        assert j / AliensPerRow == 2 && j % AliensPerRow == j - 16;
        assert all[j] == r2[j - 16];
      }
    }
  }
}
