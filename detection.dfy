/** The post-processing around the vision pipeline: which contours count as
    field squares or pieces, the reordering of the nine squares after a
    rotation, the tray boundaries ("poles"), the y-ordering of the pieces
    and the classification of the field cells by brightness.  The OpenCV
    measurements themselves (contour areas, shape tests, rectangle widths
    and angles, pixel values) are inputs. */
module Detection {
  import opened Base
  import opened Game
  import opened Transmission

  // ---------------------------------------------------------------------
  // Contours

  /** What the vision pipeline reports about one contour: its area, the
      centre the shape test returned ((-1, -1) when the test rejects it),
      and the width and angle of its minimum-area rectangle. */
  datatype Contour = Contour(area: real, centre: Point, width: real, angle: real)

  /** A contour contributes when its area is at least 1000 and the shape
      test did not answer with the -1 sentinel.  (For pieces the source
      also tests `not is_circle(cnt)`, but a returned pair is never falsy,
      so that test never rejects anything.) */
  predicate Keeps(c: Contour) { c.area >= 1000.0 && c.centre.x != -1 }

  /** The centres of the contributing contours among the first `n`, in
      contour order. */
  function KeptCentres(cs: seq<Contour>, n: nat): seq<Point>
    requires n <= |cs|
  {
    if n == 0 then []
    else KeptCentres(cs, n - 1) + (if Keeps(cs[n - 1]) then [cs[n - 1].centre] else [])
  }

  /** The last contributing contour among the first `n`, if any. */
  function LastKept(cs: seq<Contour>, n: nat): Option<Contour>
    requires n <= |cs|
  {
    if n == 0 then None
    else if Keeps(cs[n - 1]) then Some(cs[n - 1])
    else LastKept(cs, n - 1)
  }

  /** Exactly the centres of contributing contours are kept; the sample is
      the last contributing contour, and there is one exactly when some
      centre was kept. */
  lemma {:induction false} KeptSpec(cs: seq<Contour>, n: nat)
    requires n <= |cs|
    ensures forall p :: p in KeptCentres(cs, n) <==> exists j :: 0 <= j < n && Keeps(cs[j]) && cs[j].centre == p
    ensures LastKept(cs, n).None? <==> KeptCentres(cs, n) == []
    ensures LastKept(cs, n).Some? ==>
      exists j :: 0 <= j < n && cs[j] == LastKept(cs, n).value && Keeps(cs[j])
                  && forall k :: j < k < n ==> !Keeps(cs[k])
  {
    if n > 0 {
      KeptSpec(cs, n - 1);
      if Keeps(cs[n - 1]) {
        assert cs[n - 1] == LastKept(cs, n).value;
      } else {
        if LastKept(cs, n - 1).Some? {
          var j :| 0 <= j < n - 1 && cs[j] == LastKept(cs, n - 1).value && Keeps(cs[j])
                   && forall k :: j < k < n - 1 ==> !Keeps(cs[k]);
          assert forall k :: j < k < n ==> !Keeps(cs[k]);
        }
      }
    }
  }

  /** The loop shared by `find_field` and `find_pieces`: collect the
      contributing centres and remember the last contributing contour. */
  method Scan(cs: seq<Contour>) returns (centres: seq<Point>, sample: Option<Contour>)
    ensures centres == KeptCentres(cs, |cs|)
    ensures sample == LastKept(cs, |cs|)
  {
    centres, sample := [], None;
    for idx := 0 to |cs|
      invariant centres == KeptCentres(cs, idx)
      invariant sample == LastKept(cs, idx)
    {
      var block := cs[idx];
      if block.area < 1000.0 {
        continue;
      }
      if block.centre.x == -1 {
        continue;
      }
      centres := centres + [block.centre];
      sample := Some(block);
    }
  }

  // ---------------------------------------------------------------------
  // Reordering the nine squares

  /** Each row reversed: the field seen at a small rotation angle. */
  const Mirrored: seq<int> := [2, 1, 0, 5, 4, 3, 8, 7, 6]
  /** The contour order of a field turned by about 45 degrees one way ... */
  const TurnedSteep: seq<int> := [3, 1, 0, 6, 4, 2, 8, 7, 5]
  /** ... and the other way. */
  const TurnedFlat: seq<int> := [0, 1, 3, 2, 4, 6, 5, 7, 8]
  const Identity: seq<int> := [0, 1, 2, 3, 4, 5, 6, 7, 8]

  /** A reordering table: a permutation of the cell numbers 0..8. */
  predicate IsOrder(t: seq<int>)
  {
    && |t| == 9
    && (forall i :: 0 <= i < 9 ==> 0 <= t[i] < 9)
    && (forall i, j :: 0 <= i < j < 9 ==> t[i] != t[j])
    && (forall j :: 0 <= j < 9 ==> j in t)
  }

  /** The table `arrange_block` applies, given the angle between the first
      two square-to-square vectors and the rectangle angle. */
  function Order(angle201: real, angle: real): (t: seq<int>)
    ensures IsOrder(t)
  {
    if angle201 < 10.0 then
      if 60.0 < angle < 90.0 then Mirrored else Identity
    else if 85.0 < angle201 < 95.0 then
      if angle > 45.0 then TurnedSteep else TurnedFlat
    else Identity
  }

  function Permute(cs: seq<Point>, t: seq<int>): (r: seq<Point>)
    requires |cs| == 9 && IsOrder(t)
    ensures |r| == 9 && forall i :: 0 <= i < 9 ==> r[i] == cs[t[i]]
  {
    seq(9, i requires 0 <= i < 9 => cs[t[i]])
  }

  /** Reordering by a table loses no centre: every one of the nine
      appears in the result. */
  lemma PermuteCovers(cs: seq<Point>, t: seq<int>)
    requires |cs| == 9 && IsOrder(t)
    ensures forall j :: 0 <= j < 9 ==> cs[j] in Permute(cs, t)
  {
    var r := Permute(cs, t);
    forall j | 0 <= j < 9 ensures cs[j] in r {
      assert j in t;
      var i :| 0 <= i < 9 && t[i] == j;
      assert r[i] == cs[j];
    }
  }

  /** `arrange_block`: anything but nine centres gives the empty list;
      nine centres come back reordered by the selected table. */
  function ArrangeBlock(centres: seq<Point>, angle201: real, angle: real): (r: seq<Point>)
    ensures |centres| != 9 ==> r == []
    ensures |centres| == 9 ==> |r| == 9 && forall i :: 0 <= i < 9 ==> r[i] == centres[Order(angle201, angle)[i]]
  {
    if |centres| != 9 then [] else Permute(centres, Order(angle201, angle))
  }

  /** Which table is chosen, case by case. */
  lemma ArrangeBlockCases(centres: seq<Point>, angle201: real, angle: real)
    requires |centres| == 9
    ensures angle201 < 10.0 && 60.0 < angle < 90.0 ==>
      forall k :: 0 <= k < 9 ==> ArrangeBlock(centres, angle201, angle)[k] == centres[k / 3 * 3 + 2 - k % 3]
    ensures 85.0 < angle201 < 95.0 && angle > 45.0 ==>
      ArrangeBlock(centres, angle201, angle) ==
        [centres[3], centres[1], centres[0], centres[6], centres[4], centres[2], centres[8], centres[7], centres[5]]
    ensures 85.0 < angle201 < 95.0 && angle <= 45.0 ==>
      ArrangeBlock(centres, angle201, angle) ==
        [centres[0], centres[1], centres[3], centres[2], centres[4], centres[6], centres[5], centres[7], centres[8]]
    ensures (10.0 <= angle201 <= 85.0 || angle201 >= 95.0 || (angle201 < 10.0 && !(60.0 < angle < 90.0))) ==>
      ArrangeBlock(centres, angle201, angle) == centres
  {
    var r := ArrangeBlock(centres, angle201, angle);
    if angle201 < 10.0 && 60.0 < angle < 90.0 {
      forall k | 0 <= k < 9 ensures r[k] == centres[k / 3 * 3 + 2 - k % 3] {
        assert Mirrored[k] == k / 3 * 3 + 2 - k % 3;
      }
    }
  }

  // ---------------------------------------------------------------------
  // The field

  /** The tray boundaries either side of the field, in pixels. */
  datatype Pole = Pole(left: int, right: int)

  /** The field: the nine centres in cell order, and the poles. */
  datatype Layout = Layout(centres: seq<Point>, pole: Pole)

  const NoLayout := Layout([], Pole(-1, -1))

  /** `w // 2` on a float: the floor of half the width. */
  function Half(w: real): int { (w / 2.0).Floor }

  function MinX(ps: seq<Point>): (m: int)
    requires ps != []
    ensures (forall i :: 0 <= i < |ps| ==> m <= ps[i].x) && exists i :: 0 <= i < |ps| && m == ps[i].x
  {
    if |ps| == 1 then ps[0].x
    else
      var m := MinX(ps[1..]);
      assert forall i :: 1 <= i < |ps| ==> ps[1..][i - 1] == ps[i];
      if ps[0].x <= m then ps[0].x else m
  }

  function MaxX(ps: seq<Point>): (m: int)
    requires ps != []
    ensures (forall i :: 0 <= i < |ps| ==> ps[i].x <= m) && exists i :: 0 <= i < |ps| && m == ps[i].x
  {
    if |ps| == 1 then ps[0].x
    else
      var m := MaxX(ps[1..]);
      assert forall i :: 1 <= i < |ps| ==> ps[1..][i - 1] == ps[i];
      if ps[0].x >= m then ps[0].x else m
  }

  /** What `find_field` returns for a frame of mean brightness `meanGray`
      whose contours are `cs`; `angle201` is the angle (in degrees)
      between the vectors from the first kept centre to the second and to
      the third. */
  function FindFieldSpec(meanGray: real, cs: seq<Contour>, angle201: real): Layout
  {
    if meanGray < 10.0 then NoLayout
    else
      var centres := KeptCentres(cs, |cs|);
      match LastKept(cs, |cs|)
      case None => NoLayout
      case Some(sample) =>
        if |centres| != 9 then NoLayout
        else
          Layout(ArrangeBlock(centres, angle201, sample.angle),
                Pole(MinX(centres) - Half(sample.width), MaxX(centres) + Half(sample.width)))
  }

  /** `find_field` after the image processing. */
  method FindField(meanGray: real, cs: seq<Contour>, angle201: real) returns (f: Layout)
    ensures f == FindFieldSpec(meanGray, cs, angle201)
  {
    if meanGray < 10.0 {
      return NoLayout;
    }
    var centres, sample := Scan(cs);
    if sample.None? {
      return NoLayout;
    }
    if |centres| != 9 {
      return NoLayout;
    }
    var w := sample.value.width;
    var pole := Pole(MinX(centres) - Half(w), MaxX(centres) + Half(w));
    f := Layout(ArrangeBlock(centres, angle201, sample.value.angle), pole);
  }

  /** The field is found exactly when the frame is bright enough and
      exactly nine contours contribute; then its centres are those nine
      reordered by a permutation of 0..8, and with a non-negative rectangle width the poles
      bracket every centre.  Otherwise the result is the sentinel. */
  lemma FindFieldFound(meanGray: real, cs: seq<Contour>, angle201: real)
    ensures var f := FindFieldSpec(meanGray, cs, angle201);
      && (f.centres != [] <==> meanGray >= 10.0 && |KeptCentres(cs, |cs|)| == 9)
      && (f.centres == [] ==> f == NoLayout)
      && (f.centres != [] ==>
            && |f.centres| == 9
            && (exists t :: IsOrder(t) && forall i :: 0 <= i < 9 ==> f.centres[i] == KeptCentres(cs, |cs|)[t[i]])
            && LastKept(cs, |cs|).Some?
            && f.pole == Pole(MinX(KeptCentres(cs, |cs|)) - Half(LastKept(cs, |cs|).value.width),
                              MaxX(KeptCentres(cs, |cs|)) + Half(LastKept(cs, |cs|).value.width))
            && (LastKept(cs, |cs|).value.width >= 0.0 ==>
                  forall i :: 0 <= i < 9 ==> f.pole.left <= f.centres[i].x <= f.pole.right))
  {
    var centres := KeptCentres(cs, |cs|);
    KeptSpec(cs, |cs|);
    if meanGray >= 10.0 && |centres| == 9 {
      FoundCentres(meanGray, cs, angle201);
      FoundPoles(meanGray, cs, angle201);
    }
  }

  /** The found case, the centres: the nine kept centres reordered by
      the order table. */
  lemma FoundCentres(meanGray: real, cs: seq<Contour>, angle201: real)
    requires meanGray >= 10.0 && |KeptCentres(cs, |cs|)| == 9
    ensures LastKept(cs, |cs|).Some?
    ensures var f := FindFieldSpec(meanGray, cs, angle201);
      && |f.centres| == 9
      && (exists t :: IsOrder(t) && forall i :: 0 <= i < 9 ==> f.centres[i] == KeptCentres(cs, |cs|)[t[i]])
  {
    KeptSpec(cs, |cs|);
    var t := Order(angle201, LastKept(cs, |cs|).value.angle);
    assert IsOrder(t);
  }

  /** The found case, the poles: half the last kept width beyond the
      extreme centres, so with a non-negative width they bracket every
      centre. */
  lemma FoundPoles(meanGray: real, cs: seq<Contour>, angle201: real)
    requires meanGray >= 10.0 && |KeptCentres(cs, |cs|)| == 9
    ensures LastKept(cs, |cs|).Some?
    ensures var f := FindFieldSpec(meanGray, cs, angle201);
      var centres := KeptCentres(cs, |cs|);
      var w := LastKept(cs, |cs|).value.width;
      && f.pole == Pole(MinX(centres) - Half(w), MaxX(centres) + Half(w))
      && (w >= 0.0 ==> forall i :: 0 <= i < |f.centres| ==> f.pole.left <= f.centres[i].x <= f.pole.right)
  {
    var f := FindFieldSpec(meanGray, cs, angle201);
    var centres := KeptCentres(cs, |cs|);
    KeptSpec(cs, |cs|);
    var sample := LastKept(cs, |cs|).value;
    var t := Order(angle201, sample.angle);
    if sample.width >= 0.0 {
      forall i | 0 <= i < |f.centres|
        ensures f.pole.left <= f.centres[i].x <= f.pole.right
      {
        assert f.centres[i] == centres[t[i]];
      }
    }
  }

  // ---------------------------------------------------------------------
  // The pieces

  /** Python's `sorted(..., key=lambda p: p[1])` (a stable sort): insert
      the head in front of every element with the same or a larger y. */
  function InsertByY(p: Point, s: seq<Point>): seq<Point>
  {
    if s == [] || p.y <= s[0].y then [p] + s else [s[0]] + InsertByY(p, s[1..])
  }

  function SortByY(s: seq<Point>): seq<Point>
  {
    if s == [] then [] else InsertByY(s[0], SortByY(s[1..]))
  }

  predicate SortedByY(s: seq<Point>)
  {
    forall i, j :: 0 <= i < j < |s| ==> s[i].y <= s[j].y
  }

  /** The points of `s` with y-coordinate `v`, in order. */
  function WithY(s: seq<Point>, v: int): seq<Point>
  {
    if s == [] then [] else (if s[0].y == v then [s[0]] else []) + WithY(s[1..], v)
  }

  lemma {:induction false} InsertByYMultiset(p: Point, s: seq<Point>)
    ensures multiset(InsertByY(p, s)) == multiset(s) + multiset{p}
  {
    if s != [] && p.y > s[0].y {
      InsertByYMultiset(p, s[1..]);
      assert s == [s[0]] + s[1..];
    }
  }

  /** Inserting a point no lower than a bound into points no lower than
      it gives points no lower than it. */
  lemma {:induction false} InsertByYAbove(p: Point, s: seq<Point>, b: int)
    requires p.y >= b && forall i :: 0 <= i < |s| ==> s[i].y >= b
    ensures forall i :: 0 <= i < |InsertByY(p, s)| ==> InsertByY(p, s)[i].y >= b
  {
    if s != [] && p.y > s[0].y {
      InsertByYAbove(p, s[1..], b);
      var rest := InsertByY(p, s[1..]);
      forall i | 0 <= i < |InsertByY(p, s)| ensures InsertByY(p, s)[i].y >= b {
        if i > 0 {
          assert InsertByY(p, s)[i] == rest[i - 1];
        }
      }
    }
  }

  lemma {:induction false} InsertByYSorted(p: Point, s: seq<Point>)
    requires SortedByY(s)
    ensures SortedByY(InsertByY(p, s))
  {
    if s != [] && p.y > s[0].y {
      InsertByYSorted(p, s[1..]);
      InsertByYAbove(p, s[1..], s[0].y);
      var rest := InsertByY(p, s[1..]);
      var r := [s[0]] + rest;
      forall i, j | 0 <= i < j < |r| ensures r[i].y <= r[j].y {
        assert r[j] == rest[j - 1];
        if i > 0 {
          assert r[i] == rest[i - 1];
        }
      }
    }
  }

  /** `WithY` of a sequence with a known head. */
  lemma WithYCons(x: Point, t: seq<Point>, v: int)
    ensures WithY([x] + t, v) == (if x.y == v then [x] else []) + WithY(t, v)
  {
    assert ([x] + t)[1..] == t;
  }

  lemma {:induction false} InsertByYWithY(p: Point, s: seq<Point>, v: int)
    ensures WithY(InsertByY(p, s), v) == (if p.y == v then [p] else []) + WithY(s, v)
  {
    if s == [] || p.y <= s[0].y {
      WithYCons(p, s, v);
    } else {
      var rest := InsertByY(p, s[1..]);
      InsertByYWithY(p, s[1..], v);
      WithYCons(s[0], rest, v);
      WithYCons(s[0], s[1..], v);
      assert s == [s[0]] + s[1..];
      if p.y == v {
        assert WithY(InsertByY(p, s), v) == [p] + WithY(s[1..], v);
      } else if s[0].y == v {
        assert WithY(InsertByY(p, s), v) == [s[0]] + WithY(s[1..], v);
      }
    }
  }

  /** The sort orders by y, keeps the same points, and keeps the relative
      order of points with equal y (stability). */
  lemma {:induction false} SortByYSpec(s: seq<Point>)
    ensures SortedByY(SortByY(s))
    ensures multiset(SortByY(s)) == multiset(s)
    ensures forall v :: WithY(SortByY(s), v) == WithY(s, v)
  {
    if s != [] {
      SortByYSpec(s[1..]);
      InsertByYSorted(s[0], SortByY(s[1..]));
      InsertByYMultiset(s[0], SortByY(s[1..]));
      assert s == [s[0]] + s[1..];
      forall v ensures WithY(SortByY(s), v) == WithY(s, v) {
        InsertByYWithY(s[0], SortByY(s[1..]), v);
      }
    }
  }

  /** Moving every point right by `dx`. */
  function Shift(ps: seq<Point>, dx: int): (r: seq<Point>)
    ensures |r| == |ps|
  {
    seq(|ps|, i requires 0 <= i < |ps| => Point(ps[i].x + dx, ps[i].y))
  }

  lemma {:induction false} ShiftInsert(p: Point, s: seq<Point>, dx: int)
    ensures Shift(InsertByY(p, s), dx) == InsertByY(Point(p.x + dx, p.y), Shift(s, dx))
  {
    if s != [] && p.y > s[0].y {
      ShiftInsert(p, s[1..], dx);
      assert Shift(s, dx)[1..] == Shift(s[1..], dx);
      assert Shift(InsertByY(p, s), dx) == [Shift(s, dx)[0]] + Shift(InsertByY(p, s[1..]), dx);
    } else {
      assert Shift([p] + s, dx) == [Point(p.x + dx, p.y)] + Shift(s, dx);
    }
  }

  /** Moving the points sideways does not change their y-order: shifting
      after sorting is sorting after shifting. */
  lemma {:induction false} ShiftSort(s: seq<Point>, dx: int)
    ensures Shift(SortByY(s), dx) == SortByY(Shift(s, dx))
  {
    if s != [] {
      ShiftSort(s[1..], dx);
      ShiftInsert(s[0], SortByY(s[1..]), dx);
      assert Shift(s, dx)[1..] == Shift(s[1..], dx);
    }
  }

  /** What `find_pieces` returns.  Black pieces are looked for right of
      `right` (their x is relative to that strip, hence the shift), white
      ones left of `left`. */
  function FindPiecesSpec(left: int, right: int, blackCs: seq<Contour>, whiteCs: seq<Contour>): Pieces
  {
    if left < 10 || right > 630 then Pieces([], [])
    else Pieces(Shift(SortByY(KeptCentres(blackCs, |blackCs|)), right), SortByY(KeptCentres(whiteCs, |whiteCs|)))
  }

  /** `find_pieces` after the image processing. */
  method FindPieces(left: int, right: int, blackCs: seq<Contour>, whiteCs: seq<Contour>) returns (p: Pieces)
    ensures p == FindPiecesSpec(left, right, blackCs, whiteCs)
  {
    if left < 10 || right > 630 {
      return Pieces([], []);
    }
    var black, _ := Scan(blackCs);
    var white, _ := Scan(whiteCs);
    black := SortByY(black);
    white := SortByY(white);
    black := seq(|black|, x requires 0 <= x < |black| => Point(black[x].x + right, black[x].y));
    p := Pieces(black, white);
  }

  /** With an unreliable region of interest both lists are empty.
      Otherwise each side lists its kept pieces sorted by y, stably, and
      the black ones are moved right by `right`. */
  lemma FindPiecesSpecProps(left: int, right: int, blackCs: seq<Contour>, whiteCs: seq<Contour>)
    ensures var p := FindPiecesSpec(left, right, blackCs, whiteCs);
      var black, white := KeptCentres(blackCs, |blackCs|), KeptCentres(whiteCs, |whiteCs|);
      && (left < 10 || right > 630 ==> p.black == [] && p.white == [])
      && (10 <= left && right <= 630 ==>
            && SortedByY(p.white) && multiset(p.white) == multiset(white)
            && (forall v :: WithY(p.white, v) == WithY(white, v))
            && SortedByY(p.black) && multiset(p.black) == multiset(Shift(black, right))
            && (forall v :: WithY(p.black, v) == WithY(Shift(black, right), v)))
  {
    var black, white := KeptCentres(blackCs, |blackCs|), KeptCentres(whiteCs, |whiteCs|);
    if 10 <= left && right <= 630 {
      SortByYSpec(white);
      ShiftSort(black, right);
      SortByYSpec(Shift(black, right));
    }
  }

  // ---------------------------------------------------------------------
  // Reading the board

  /** The side each code plays: 4 makes this program "X" and the other
      side "O", 5 the reverse; any other code leaves both unset. */
  function Roles(me: int): Option<(Cell, Cell)>
  {
    if me == 4 then Some((X, O))
    else if me == 5 then Some((O, X))
    else None
  }

  /** A brightness that marks a piece: above 210 or below 100. */
  predicate Marks(v: byte) { v > 210 || v < 100 }

  const Blank: Grid := [Empty, Empty, Empty, Empty, Empty, Empty, Empty, Empty, Empty]

  /** The board after the first `n` samples (the gray values at the field
      centres, cell by cell).  A marking sample needs the roles (otherwise
      the unset role variable raises UnboundLocalError) and a cell number
      below 9 (otherwise the row index raises IndexError). */
  function DetectUpTo(samples: seq<byte>, me: int, n: nat): Result<Grid>
    requires n <= |samples|
  {
    if n == 0 then Success(Blank)
    else
      match DetectUpTo(samples, me, n - 1)
      case Failure(e) => Failure(e)
      case Success(g) =>
        var v := samples[n - 1];
        if !Marks(v) then Success(g)
        else if Roles(me).None? then Failure(UnboundLocalError)
        else if n - 1 >= 9 then Failure(IndexError)
        else
          var (ego, tu) := Roles(me).value;
          var g': Grid := g[n - 1 := if v > 210 then ego else tu];
          Success(g')
  }

  function Detect(samples: seq<byte>, me: int): Result<Grid>
  {
    DetectUpTo(samples, me, |samples|)
  }

  /** An exception ends the loop: later samples do not change it. */
  lemma {:induction false} DetectFailureStays(samples: seq<byte>, me: int, n: nat, m: nat)
    requires n <= m <= |samples| && DetectUpTo(samples, me, n).Failure?
    ensures DetectUpTo(samples, me, m) == DetectUpTo(samples, me, n)
    decreases m - n
  {
    if n < m {
      DetectFailureStays(samples, me, n + 1, m);
    }
  }

  /** `read_board` after the image processing. */
  method ReadBoard(samples: seq<byte>, me: int) returns (r: Result<Grid>)
    ensures r == Detect(samples, me)
  {
    var board := new Cell[9](_ => Empty);
    assert board[..] == Blank;
    var ego: Option<Cell> := None;
    var tu: Option<Cell> := None;
    if me == 4 {
      ego, tu := Some(X), Some(O);
    } else if me == 5 {
      ego, tu := Some(O), Some(X);
    }
    for idx := 0 to |samples|
      invariant DetectUpTo(samples, me, idx).Success? && DetectUpTo(samples, me, idx).value == board[..]
      invariant ego.Some? <==> Roles(me).Some?
      invariant ego.Some? ==> Roles(me).value == (ego.value, tu.value)
    {
      var color := samples[idx];
      if color > 210 || color < 100 {
        if ego.None? {
          DetectFailureStays(samples, me, idx + 1, |samples|);
          return Failure(UnboundLocalError);
        }
        if idx / 3 >= 3 {
          DetectFailureStays(samples, me, idx + 1, |samples|);
          return Failure(IndexError);
        }
        assert idx / 3 * 3 + idx % 3 == idx;
        board[idx / 3 * 3 + idx % 3] := if color > 210 then ego.value else tu.value;
      }
    }
    var g: Grid := board[..];
    r := Success(g);
  }

  /** Reading succeeds exactly when every marking sample has roles and a
      cell below 9; then each cell holds this program's piece for a bright
      sample, the other side's for a dark one, and is blank otherwise
      (including cells without a sample).  A failure is UnboundLocalError
      exactly when `me` is neither 4 nor 5. */
  lemma {:induction false} DetectSpec(samples: seq<byte>, me: int, n: nat)
    requires n <= |samples|
    ensures var r := DetectUpTo(samples, me, n);
      && (r.Success? <==> forall i :: 0 <= i < n && Marks(samples[i]) ==> (me == 4 || me == 5) && i < 9)
      && (r.Failure? ==> (r.error == UnboundLocalError <==> me != 4 && me != 5))
      && (r.Failure? ==> r.error == UnboundLocalError || r.error == IndexError)
      && (r.Success? ==> forall k :: 0 <= k < 9 ==>
            && (k < n && samples[k] > 210 ==> r.value[k] == (if me == 4 then X else O))
            && (k < n && samples[k] < 100 ==> r.value[k] == (if me == 4 then O else X))
            && (k >= n || !Marks(samples[k]) ==> r.value[k] == Empty))
  {
    if n > 0 {
      DetectSpec(samples, me, n - 1);
    }
  }
}
