/** The brick field: the row-major grid built at every (re)initialisation, and
    the collision pass that deletes bricks while walking the live list. */
module BrickField {
  import opened Geometry
  import opened Entities
  import opened Subsequence

  /** One row of the grid: `brickCols` bricks side by side at height `row`. */
  function GridRow(cfg: Config, row: int): seq<Brick>
  {
    seq(cfg.brickCols, col => Brick(col * cfg.brickWidth, row * cfg.brickHeight, cfg.brickWidth, cfg.brickHeight))
  }

  /** The first `n` rows of the grid, appended row by row as the nested loops do. */
  function GridRows(cfg: Config, n: nat): (g: seq<Brick>)
    ensures |g| == n * cfg.brickCols
  {
    if n == 0 then [] else GridRows(cfg, n - 1) + GridRow(cfg, n - 1)
  }

  /** The full brick field of a fresh game. */
  function Grid(cfg: Config): seq<Brick>
  {
    GridRows(cfg, cfg.brickRows)
  }

  /** Brick `row * cols + col` of the first `n` rows sits at
      `(col * brickWidth, row * brickHeight)` with the configured size. */
  lemma {:induction false} GridRowsAt(cfg: Config, n: nat, row: int, col: int)
    requires 0 <= row < n && 0 <= col < cfg.brickCols
    ensures 0 <= row * cfg.brickCols + col < |GridRows(cfg, n)|
    ensures GridRows(cfg, n)[row * cfg.brickCols + col]
         == Brick(col * cfg.brickWidth, row * cfg.brickHeight, cfg.brickWidth, cfg.brickHeight)
  {
    var c := cfg.brickCols;
    var prefix := GridRows(cfg, n - 1);
    assert |prefix| == (n - 1) * c;
    if row == n - 1 {
      assert GridRows(cfg, n)[row * c + col] == GridRow(cfg, n - 1)[col];
    } else {
      GridRowsAt(cfg, n - 1, row, col);
      assert (row + 1) * c <= (n - 1) * c by {
        assert row + 1 <= n - 1;
      }
      assert GridRows(cfg, n)[row * c + col] == prefix[row * c + col];
    }
  }

  /** The grid holds exactly `rows * cols` bricks, laid out row-major. */
  lemma GridLayout(cfg: Config, row: int, col: int)
    requires 0 <= row < cfg.brickRows && 0 <= col < cfg.brickCols
    ensures |Grid(cfg)| == cfg.brickRows * cfg.brickCols
    ensures 0 <= row * cfg.brickCols + col < |Grid(cfg)|
    ensures Grid(cfg)[row * cfg.brickCols + col]
         == Brick(col * cfg.brickWidth, row * cfg.brickHeight, cfg.brickWidth, cfg.brickHeight)
  {
    GridRowsAt(cfg, cfg.brickRows, row, col);
  }

  /** Every brick of the first `n` rows lies in one of those rows. */
  lemma {:induction false} GridRowsBelow(cfg: Config, n: nat, i: int)
    requires cfg.brickHeight > 0
    requires 0 <= i < |GridRows(cfg, n)|
    ensures 0 <= GridRows(cfg, n)[i].y < n * cfg.brickHeight
  {
    var prefix := GridRows(cfg, n - 1);
    if i < |prefix| {
      GridRowsBelow(cfg, n - 1, i);
      assert (n - 1) * cfg.brickHeight <= n * cfg.brickHeight;
    } else {
      assert GridRows(cfg, n)[i] == GridRow(cfg, n - 1)[i - |prefix|];
      assert 0 <= (n - 1) * cfg.brickHeight;
    }
  }

  lemma {:induction false} GridRowsDistinct(cfg: Config, n: nat)
    requires cfg.brickWidth > 0 && cfg.brickHeight > 0
    ensures Distinct(GridRows(cfg, n))
  {
    if n > 0 {
      GridRowsDistinct(cfg, n - 1);
      var prefix := GridRows(cfg, n - 1);
      var last := GridRow(cfg, n - 1);
      var g := GridRows(cfg, n);
      forall i, j | 0 <= i < j < |g|
        ensures g[i] != g[j]
      {
        if j < |prefix| {
          assert g[i] == prefix[i] && g[j] == prefix[j];
        } else if i < |prefix| {
          GridRowsBelow(cfg, n - 1, i);
          assert g[i] == prefix[i];
          assert g[j] == last[j - |prefix|];
          assert g[j].y == (n - 1) * cfg.brickHeight;
        } else {
          var ci, cj := i - |prefix|, j - |prefix|;
          assert g[i] == last[ci] && g[j] == last[cj];
          MulStrict(ci, cj, cfg.brickWidth);
        }
      }
    }
  }

  lemma MulStrict(a: int, b: int, w: int)
    requires a < b && w > 0
    ensures a * w < b * w
  {
    assert b * w - a * w == (b - a) * w;
  }

  /** With positive brick sizes no two grid bricks are equal, so deleting a
      brick by value (`list.remove`) deletes it at its own position. */
  lemma GridDistinct(cfg: Config)
    requires cfg.brickWidth > 0 && cfg.brickHeight > 0
    ensures Distinct(Grid(cfg))
  {
    GridRowsDistinct(cfg, cfg.brickRows);
  }

  predicate Hits(box: Rect, b: Brick)
  {
    Overlaps(b.Rect(), box)
  }

  /** The bricks that survive one pass of the collision loop over `bs`
      against the ball's box. A hit brick is deleted while the list is being
      walked, so the brick right after it moves into the slot the walk has
      already passed and is not looked at in this pass. */
  function Sweep(box: Rect, bs: seq<Brick>): (rest: seq<Brick>)
    ensures |rest| <= |bs|
    decreases |bs|
  {
    if |bs| == 0 then []
    else if Hits(box, bs[0]) then
      (if |bs| == 1 then [] else [bs[1]] + Sweep(box, bs[2..]))
    else [bs[0]] + Sweep(box, bs[1..])
  }

  /** The bricks the ball's box does not touch: what a pass that looked at
      every brick would keep. */
  function Keep(box: Rect, bs: seq<Brick>): (rest: seq<Brick>)
    ensures forall b | b in rest :: b in bs && !Hits(box, b)
    ensures forall b | b in bs && !Hits(box, b) :: b in rest
    decreases |bs|
  {
    if |bs| == 0 then []
    else if Hits(box, bs[0]) then Keep(box, bs[1..])
    else [bs[0]] + Keep(box, bs[1..])
  }

  /** `vy` reversed once per deleted brick. */
  function Flip(vy: int, times: nat): int
  {
    if times % 2 == 0 then vy else -vy
  }

  /** The collision loop as written: an iterator position that advances by
      one after every element, whatever the body did to the list. */
  method SweepLoop(box: Rect, bs: seq<Brick>, vy: int) returns (rest: seq<Brick>, removed: nat, vy': int)
    ensures rest == Sweep(box, bs)
    ensures removed == |bs| - |rest|
    ensures vy' == Flip(vy, removed)
  {
    rest := bs;
    removed := 0;
    vy' := vy;
    var i := 0;
    while i < |rest|
      invariant 0 <= i <= |rest| + 1
      invariant i <= |rest| ==> rest[..i] + Sweep(box, rest[i..]) == Sweep(box, bs)
      invariant i == |rest| + 1 ==> rest == Sweep(box, bs)
      invariant removed == |bs| - |rest|
      invariant vy' == Flip(vy, removed)
      decreases |rest| + 1 - i
    {
      var brick := rest[i];
      if Hits(box, brick) {
        SweepHitStep(box, rest, i, Sweep(box, bs));
        FlipStep(vy, removed);
        rest := rest[..i] + rest[i + 1..];
        removed := removed + 1;
        vy' := -vy';
      } else {
        SweepMissStep(box, rest, i, Sweep(box, bs));
      }
      i := i + 1;
    }
  }

  lemma FlipStep(vy: int, k: nat)
    ensures Flip(vy, k + 1) == -Flip(vy, k)
  {
  }

  /** One step of `Sweep` at the head of a list. */
  lemma SweepUnfold(box: Rect, s: seq<Brick>)
    requires |s| > 0
    ensures !Hits(box, s[0]) ==> Sweep(box, s) == [s[0]] + Sweep(box, s[1..])
    ensures Hits(box, s[0]) && |s| == 1 ==> Sweep(box, s) == []
    ensures Hits(box, s[0]) && |s| > 1 ==> Sweep(box, s) == [s[1]] + Sweep(box, s[2..])
  {
  }

  /** The loop invariant survives a step that deletes the brick at `i`. */
  lemma SweepHitStep(box: Rect, rest: seq<Brick>, i: nat, target: seq<Brick>)
    requires i < |rest| && Hits(box, rest[i])
    requires rest[..i] + Sweep(box, rest[i..]) == target
    ensures var r := rest[..i] + rest[i + 1..];
      && (i + 1 <= |r| ==> r[..i + 1] + Sweep(box, r[i + 1..]) == target)
      && (i + 1 == |r| + 1 ==> r == target)
  {
    var r := rest[..i] + rest[i + 1..];
    var tail := rest[i..];
    SweepUnfold(box, tail);
    if i + 1 < |rest| {
      assert tail[1] == rest[i + 1];
      assert tail[2..] == rest[i + 2..];
      assert r[..i + 1] == rest[..i] + [rest[i + 1]];
      assert r[i + 1..] == rest[i + 2..];
    } else {
      assert Sweep(box, tail) == [];
      assert r == rest[..i];
    }
  }

  /** The loop invariant survives a step that keeps the brick at `i`. */
  lemma SweepMissStep(box: Rect, rest: seq<Brick>, i: nat, target: seq<Brick>)
    requires i < |rest| && !Hits(box, rest[i])
    requires rest[..i] + Sweep(box, rest[i..]) == target
    ensures rest[..i + 1] + Sweep(box, rest[i + 1..]) == target
  {
    var tail := rest[i..];
    assert tail[0] == rest[i] && !Hits(box, tail[0]);
    assert tail[1..] == rest[i + 1..];
    SweepUnfold(box, tail);
    assert rest[..i + 1] == rest[..i] + [rest[i]];
  }

  /** A pass only deletes, and keeps the order of what it leaves. */
  lemma {:induction false} SweepSub(box: Rect, bs: seq<Brick>)
    ensures Sub(Sweep(box, bs), bs)
    decreases |bs|
  {
    if |bs| > 0 {
      if Hits(box, bs[0]) {
        if |bs| > 1 {
          SweepSub(box, bs[2..]);
          SubCons(bs[1], Sweep(box, bs[2..]), bs[2..]);
          assert [bs[1]] + bs[2..] == bs[1..];
        }
      } else {
        SweepSub(box, bs[1..]);
        SubCons(bs[0], Sweep(box, bs[1..]), bs[1..]);
        assert [bs[0]] + bs[1..] == bs;
      }
    }
  }

  /** A pass never deletes a brick the box does not touch: the survivors lie
      between the untouched bricks and the whole list. */
  lemma {:induction false} SweepKeepsUntouched(box: Rect, bs: seq<Brick>)
    ensures Sub(Keep(box, bs), Sweep(box, bs))
    decreases |bs|
  {
    if |bs| > 0 {
      if Hits(box, bs[0]) {
        if |bs| > 1 {
          SweepKeepsUntouched(box, bs[2..]);
          assert bs[1..][1..] == bs[2..];
          if Hits(box, bs[1]) {
            assert Keep(box, bs) == Keep(box, bs[2..]);
            SubSkip(Keep(box, bs[2..]), bs[1], Sweep(box, bs[2..]));
          } else {
            assert Keep(box, bs) == [bs[1]] + Keep(box, bs[2..]);
            SubCons(bs[1], Keep(box, bs[2..]), Sweep(box, bs[2..]));
          }
        }
      } else {
        SweepKeepsUntouched(box, bs[1..]);
        SubCons(bs[0], Keep(box, bs[1..]), Sweep(box, bs[1..]));
      }
    }
  }

  /** Every brick a pass deletes was touched by the box. */
  lemma SweepRemovesOnlyHits(box: Rect, bs: seq<Brick>, b: Brick)
    requires b in bs && b !in Sweep(box, bs)
    ensures Hits(box, b)
  {
    if !Hits(box, b) {
      SweepKeepsUntouched(box, bs);
      SubMember(Keep(box, bs), Sweep(box, bs), b);
    }
  }

  /** A pass deletes something exactly when some brick is touched: the first
      touched brick is always looked at. */
  lemma {:induction false} SweepShrinksIffHit(box: Rect, bs: seq<Brick>)
    ensures |Sweep(box, bs)| < |bs| <==> exists i | 0 <= i < |bs| :: Hits(box, bs[i])
    decreases |bs|
  {
    if |bs| > 0 && !Hits(box, bs[0]) {
      SweepShrinksIffHit(box, bs[1..]);
      if exists i | 0 <= i < |bs| :: Hits(box, bs[i]) {
        var i :| 0 <= i < |bs| && Hits(box, bs[i]);
        assert bs[1..][i - 1] == bs[i];
      }
      if exists i | 0 <= i < |bs[1..]| :: Hits(box, bs[1..][i]) {
        var i :| 0 <= i < |bs[1..]| && Hits(box, bs[1..][i]);
        assert bs[i + 1] == bs[1..][i];
      }
    }
  }

  /** When no two touched bricks are neighbours in the list, the skipping does
      not matter and a pass deletes exactly the touched bricks. */
  lemma {:induction false} SweepExactWithoutNeighbours(box: Rect, bs: seq<Brick>)
    requires forall i | 0 <= i < |bs| - 1 :: !(Hits(box, bs[i]) && Hits(box, bs[i + 1]))
    ensures Sweep(box, bs) == Keep(box, bs)
    decreases |bs|
  {
    if |bs| > 0 {
      if Hits(box, bs[0]) {
        if |bs| > 1 {
          assert !Hits(box, bs[1]);
          assert bs[1..][1..] == bs[2..];
          forall i | 0 <= i < |bs[2..]| - 1
            ensures !(Hits(box, bs[2..][i]) && Hits(box, bs[2..][i + 1]))
          {
            assert bs[2..][i] == bs[i + 2] && bs[2..][i + 1] == bs[i + 3];
          }
          SweepExactWithoutNeighbours(box, bs[2..]);
        }
      } else {
        forall i | 0 <= i < |bs[1..]| - 1
          ensures !(Hits(box, bs[1..][i]) && Hits(box, bs[1..][i + 1]))
        {
          assert bs[1..][i] == bs[i + 1] && bs[1..][i + 1] == bs[i + 2];
        }
        SweepExactWithoutNeighbours(box, bs[1..]);
      }
    }
  }

  /** The skip itself: when the first two bricks are both touched, the second
      one survives this pass. */
  lemma SweepSkipsNeighbour(box: Rect, bs: seq<Brick>)
    requires |bs| >= 2 && Hits(box, bs[0]) && Hits(box, bs[1])
    ensures |Sweep(box, bs)| > 0 && Sweep(box, bs)[0] == bs[1]
  {
  }

  /** If exactly one brick is touched, a pass deletes exactly one brick. */
  lemma SweepSingleHit(box: Rect, bs: seq<Brick>)
    requires |Keep(box, bs)| == |bs| - 1
    ensures |Sweep(box, bs)| == |bs| - 1
  {
    SweepKeepsUntouched(box, bs);
    SubLength(Keep(box, bs), Sweep(box, bs));
    KeepShort(box, bs);
    var i :| 0 <= i < |bs| && Hits(box, bs[i]);
    SweepShrinksIffHit(box, bs);
  }

  /** A shorter `Keep` means some brick is touched. */
  lemma {:induction false} KeepShort(box: Rect, bs: seq<Brick>)
    requires |Keep(box, bs)| < |bs|
    ensures exists i | 0 <= i < |bs| :: Hits(box, bs[i])
    decreases |bs|
  {
    if !Hits(box, bs[0]) {
      KeepShort(box, bs[1..]);
      var i :| 0 <= i < |bs[1..]| && Hits(box, bs[1..][i]);
      assert bs[i + 1] == bs[1..][i];
    }
  }
}
