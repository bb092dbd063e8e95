/** One iteration of the camera loop of the primary controller: locate the
    field and the pieces and report them, then, when the motion controller
    asked (or the last search failed), read the board, check it for a
    moved "O", announce an outcome or answer with the computer's move.

    Two serial handles appear.  `ser` is the port this loop opens and
    writes the move frame to.  `tx` is the handle the transmission
    functions write through; the loop rebinds only its own name, so as
    written `tx` stays unset (null) and those reports go nowhere.  The two
    are distinct objects. */
module MainLoop {
  import opened Base
  import opened Game
  import opened Transmission
  import opened Detection

  /** What the vision pipeline measured on this iteration's frame. */
  datatype Frame = Frame(
    meanGray: real,
    contours: seq<Contour>,
    angle201: real,
    blackCs: seq<Contour>,
    whiteCs: seq<Contour>,
    samples: seq<byte>)

  /** The frames of a list of messages. */
  function Frames(ms: seq<Message>): (fs: seq<seq<int>>)
    ensures |fs| == |ms|
  {
    seq(|ms|, i requires 0 <= i < |ms| => Encode(ms[i]))
  }

  predicate AllSendable(ms: seq<Message>) { forall i :: 0 <= i < |ms| ==> Sendable(ms[i]) }

  /** Sendable messages are all written, and each written frame reads back
      as its message. */
  lemma FramesDecode(ms: seq<Message>)
    requires AllSendable(ms)
    ensures var e := Emit(Frames(ms));
      && e.status == Ok && |e.log| == |ms|
      && forall i :: 0 <= i < |ms| ==> Decode(e.log[i]) == Some(ms[i])
  {
    var fs := Frames(ms);
    forall i | 0 <= i < |ms| ensures ToByteArray(fs[i]).Some? && Decode(ToByteArray(fs[i]).value) == Some(ms[i]) {
      EncodeDecode(ms[i]);
    }
    EmitSpec(fs);
  }

  /** A single sendable message is written as one converted frame. */
  lemma WriteOne(m: Message)
    requires Sendable(m)
    ensures Emit(Frames([m])) == Emission([ToByteArray(Encode(m)).value], Ok)
  {
    Convertible(m);
    assert Frames([m]) == [Encode(m)];
  }

  // ---------------------------------------------------------------------
  // Field and pieces

  /** The frames `send_field` produces for a located field: none unless
      it has nine centres. */
  function FieldPart(lay: Layout): seq<seq<int>>
  {
    if |lay.centres| == 9 then FieldFrames(lay.centres) else []
  }

  /** The pieces searched for beside a located field. */
  function PiecesBeside(lay: Layout, blackCs: seq<Contour>, whiteCs: seq<Contour>): Option<Pieces>
  {
    if lay.pole.left == -1 then None
    else Some(FindPiecesSpec(lay.pole.left, lay.pole.right, blackCs, whiteCs))
  }

  /** The frames `send_pieces` produces: none without a piece search. */
  function PiecePart(pieces: Option<Pieces>): seq<seq<int>>
  {
    match pieces case None => [] case Some(p) => PiecesFrames(p)
  }

  /** Pieces are looked for only when the left pole is not the -1 sentinel. */
  function SurveyPieces(f: Frame): Option<Pieces>
  {
    PiecesBeside(FindFieldSpec(f.meanGray, f.contours, f.angle201), f.blackCs, f.whiteCs)
  }

  /** The frames `send_field` and `send_pieces` produce for a frame. */
  function SurveyFrames(f: Frame): seq<seq<int>>
  {
    FieldPart(FindFieldSpec(f.meanGray, f.contours, f.angle201)) + PiecePart(SurveyPieces(f))
  }

  /** Reporting a located field and the pieces beside it. */
  method Report(tx: Serial?, lay: Layout, blackCs: seq<Contour>, whiteCs: seq<Contour>) returns (st: Status)
    modifies tx
    ensures tx == null ==> st == Ok
    ensures tx != null ==>
      var e := Emit(FieldPart(lay) + PiecePart(PiecesBeside(lay, blackCs, whiteCs)));
      tx.incoming == old(tx.incoming) && tx.written == old(tx.written) + e.log && st == e.status
  {
    EmitConcat(FieldPart(lay), PiecePart(PiecesBeside(lay, blackCs, whiteCs)));
    st := SendField(tx, lay.centres);
    if st != Ok {
      return;
    }
    var pieces: Option<Pieces> := None;
    if lay.pole.left != -1 {
      var p := FindPieces(lay.pole.left, lay.pole.right, blackCs, whiteCs);
      pieces := Some(p);
    }
    st := SendPieces(tx, pieces);
  }

  /** The first part of the loop body: find and report the field, then
      find and report the pieces.  A ValueError from a frame ends the
      iteration (and the program). */
  method Survey(tx: Serial?, f: Frame) returns (st: Status)
    modifies tx
    ensures tx == null ==> st == Ok
    ensures tx != null ==>
      var e := Emit(SurveyFrames(f));
      tx.incoming == old(tx.incoming) && tx.written == old(tx.written) + e.log && st == e.status
  {
    var lay := FindField(f.meanGray, f.contours, f.angle201);
    st := Report(tx, lay, f.blackCs, f.whiteCs);
  }

  /** Without a field nothing is reported: no centres and, the pole being
      the sentinel, no piece search either. */
  lemma SurveyNoField(f: Frame)
    requires FindFieldSpec(f.meanGray, f.contours, f.angle201).centres == []
    ensures SurveyPieces(f) == None && SurveyFrames(f) == []
  {
    FindFieldFound(f.meanGray, f.contours, f.angle201);
  }

  /** With a field found and coordinates that fit 16 bits, every frame is
      written: first the nine centres in cell order, then the pieces. */
  lemma SurveyDecodes(f: Frame)
    requires var lay := FindFieldSpec(f.meanGray, f.contours, f.angle201);
      && lay.centres != []
      && (forall i :: 0 <= i < |lay.centres| ==> IsWord(lay.centres[i].x) && IsWord(lay.centres[i].y))
    requires SurveyPieces(f).Some? ==>
      var p := SurveyPieces(f).value;
      |p.black| <= 256 && |p.white| <= 256 && forall c | c in p.black + p.white :: IsWord(c.x) && IsWord(c.y)
    ensures var lay := FindFieldSpec(f.meanGray, f.contours, f.angle201);
      var e := Emit(SurveyFrames(f));
      && e.status == Ok
      && |e.log| == 9 + (if SurveyPieces(f).Some? then |SurveyPieces(f).value.black| + |SurveyPieces(f).value.white| else 0)
      && forall i :: 0 <= i < 9 ==> Decode(e.log[i]) == Some(Field(i, lay.centres[i]))
  {
    var lay := FindFieldSpec(f.meanGray, f.contours, f.angle201);
    FindFieldFound(f.meanGray, f.contours, f.angle201);
    FieldFramesDecode(lay.centres);
    EmitConcat(FieldPart(lay), PiecePart(SurveyPieces(f)));
    if SurveyPieces(f).Some? {
      PiecesFramesDecode(SurveyPieces(f).value);
    }
  }

  // ---------------------------------------------------------------------
  // Judging the board

  /** The variables the loop keeps across iterations: the board of the
      last accepted turn, whether the last search found no move, and the
      last command. */
  datatype Ctl = Ctl(last: Option<Grid>, failed: bool, cmd: seq<byte>)

  const Start := Ctl(None, false, [])

  /** What handling a board does: the new loop variables, the frames for
      `ser` (the move) and for `tx` (notices), and how it ended. */
  datatype Turn = Turn(ctl: Ctl, moves: seq<Message>, notices: seq<Message>, status: Status)

  /** The side a command asks for: b"4" and b"5"; 0 for anything else. */
  function Side(cmd: seq<byte>): int
  {
    if cmd == [0x34] then 4 else if cmd == [0x35] then 5 else 0
  }

  /** Playing the computer's move: the board shared with `last` receives
      the "O", the move frame carries the 0-based cell, and the board is
      judged again. */
  function PlayTurn(c: Ctl, b: Grid, m: Pos): Turn
    requires IsBlank(b, m)
  {
    var after := Place(b, m, O);
    var w := DecideWin(after);
    Turn(c.(last := Some(after), failed := false), [Move(Index(m))],
         if w == 1 then [Winner(1)] else if w == 3 then [Winner(3)] else [],
         Ok)
  }

  /** The same step as the loop writes it: the "O" lands on the shared
      board, then building the frame names a class the module never
      imports. */
  function PlayTurnAsWritten(c: Ctl, b: Grid, m: Pos): Turn
    requires IsBlank(b, m)
  {
    Turn(c.(last := Some(Place(b, m, O))), [], [], Raised(NameError))
  }

  /** After the anti-cheat gate: the board becomes `last` and the outcome
      decides between a notice, nothing, and a move.  Winner codes are
      those of `notify_winner`: 1 "computer", 2 "human", 3 "draw". */
  function DispatchTurn(c: Ctl, b: Grid, asWritten: bool): Turn
  {
    var c2 := c.(last := Some(b));
    var w := DecideWin(b);
    if w == -1 then Turn(c2, [], [Winner(2)], Ok)
    else if w == 3 then Turn(c2, [], [Winner(3)], Ok)
    else if w == 0 then
      BestMoveChoice(b, "minimax");
      match ChooseMove(b, "minimax")
      case None => Turn(c2.(failed := true), [], [], Ok)
      case Some(m) => if asWritten then PlayTurnAsWritten(c2, b, m) else PlayTurn(c2, b, m)
    else Turn(c2, [], [], Ok)
  }

  /** Handling a board that was read: a relocated "O" is reported and the
      board dropped; otherwise the outcome is dispatched. */
  function HandleTurn(c: Ctl, b: Grid, asWritten: bool): Turn
  {
    if c.last.Some? && AntiCheatVerdict(c.last.value, b).0 then
      var (_, oldPos, newPos) := AntiCheatVerdict(c.last.value, b);
      Turn(c, [], [Cheat(oldPos, newPos)], Ok)
    else
      DispatchTurn(c, b, asWritten)
  }

  /** With the command settled: read the board for b"4" or b"5" and
      handle it; anything else ends the iteration. */
  function CommandTurn(c: Ctl, samples: seq<byte>, asWritten: bool): Turn
  {
    var side := Side(c.cmd);
    if side == 0 then Turn(c, [], [], Ok)
    else
      match Detect(samples, side)
      case Failure(e) => Turn(c, [], [], Raised(e))
      case Success(b) => HandleTurn(c, b, asWritten)
  }

  /** The command part of the loop body.  The flag says whether the
      waiting bytes were drained into the command. */
  function JudgeTurn(c: Ctl, waiting: seq<byte>, samples: seq<byte>, asWritten: bool): (bool, Turn)
  {
    if |waiting| == 0 && !c.failed then (false, Turn(c, [], [], Ok))
    else if c.failed then (false, CommandTurn(c, samples, asWritten))
    else (true, CommandTurn(c.(cmd := waiting), samples, asWritten))
  }

  /** A relocated "O" is reported with the cell it left and the cell it
      reached, nothing else is sent, and the previous board stays. */
  lemma CheatGate(c: Ctl, b: Grid)
    requires c.last.Some? && AntiCheatVerdict(c.last.value, b).0
    ensures var t := HandleTurn(c, b, false);
      && t.ctl == c && t.moves == [] && t.status == Ok
      && exists o, n :: t.notices == [Cheat(o, n)] && Gained(b, c.last.value, o) && Gained(c.last.value, b, n)
  {
    AntiCheatSpec(c.last.value, b);
    var (_, o, n) := AntiCheatVerdict(c.last.value, b);
    assert HandleTurn(c, b, false).notices == [Cheat(o, n)];
  }

  /** Without a cheat the board is kept, and the outcome picks what is
      sent: a win for X or a full board gives the matching notice, a win
      for O gives nothing. */
  lemma OutcomeNotices(c: Ctl, b: Grid)
    requires !(c.last.Some? && AntiCheatVerdict(c.last.value, b).0)
    ensures var t := HandleTurn(c, b, false);
      && (DecideWin(b) != 0 ==> t.ctl == c.(last := Some(b)) && t.moves == [] && t.status == Ok)
      && (DecideWin(b) == -1 ==> t.notices == [Winner(2)])
      && (DecideWin(b) == 3 ==> t.notices == [Winner(3)])
      && (DecideWin(b) == 1 ==> t.notices == [])
  {
  }

  /** In an open game the chosen blank cell is played: the move frame
      carries it, and the kept board is the read board with that "O" (one
      more piece), because the two are the same object. */
  lemma MoveKept(c: Ctl, b: Grid)
    requires !(c.last.Some? && AntiCheatVerdict(c.last.value, b).0) && DecideWin(b) == 0
    ensures var t := HandleTurn(c, b, false);
      && ChooseMove(b, "minimax").Some?
      && var m := ChooseMove(b, "minimax").value;
      && IsBlank(b, m)
      && t.ctl == c.(last := Some(Place(b, m, O)), failed := false)
      && PieceCount(t.ctl.last.value) == PieceCount(b) + 1
      && t.moves == [Move(Index(m))] && 0 <= Index(m) < 9
      && t.status == Ok
      && (DecideWin(Place(b, m, O)) == 1 ==> t.notices == [Winner(1)])
      && (DecideWin(Place(b, m, O)) == 3 ==> t.notices == [Winner(3)])
      && (DecideWin(Place(b, m, O)) == 0 ==> t.notices == [])
  {
    OpenGameHasMove(b, "minimax");
    BestMoveChoice(b, "minimax");
    var m := ChooseMove(b, "minimax").value;
    PlaceCount(b, m, O);
  }

  /** As written, every open game ends the program at the move frame: the
      "O" is already on the kept board, but no move frame is sent. */
  lemma MoveFrameLostAsWritten(c: Ctl, b: Grid)
    requires !(c.last.Some? && AntiCheatVerdict(c.last.value, b).0) && DecideWin(b) == 0
    ensures var t := HandleTurn(c, b, true);
      && ChooseMove(b, "minimax").Some?
      && var m := ChooseMove(b, "minimax").value;
      && OnBoard(m)
      && t.status == Raised(NameError) && t.moves == []
      && t.ctl.last == Some(Place(b, m, O))
  {
    OpenGameHasMove(b, "minimax");
    BestMoveChoice(b, "minimax");
  }

  /** Every frame a turn sends is sendable, so it is written whole and
      reads back as its message. */
  lemma TurnFramesDecode(c: Ctl, b: Grid)
    ensures var t := HandleTurn(c, b, false);
      AllSendable(t.moves) && AllSendable(t.notices)
  {
    if c.last.Some? && AntiCheatVerdict(c.last.value, b).0 {
      AntiCheatSpec(c.last.value, b);
    } else if DecideWin(b) == 0 {
      OpenGameHasMove(b, "minimax");
      BestMoveChoice(b, "minimax");
      PosOfIndex(ChooseMove(b, "minimax").value);
    }
  }

  /** Starting with the flag clear, the loop never sets it: an open game
      always has a blank cell to play, so the previous command is never
      replayed. */
  lemma FailedNeverSet(c: Ctl, waiting: seq<byte>, samples: seq<byte>, asWritten: bool)
    requires !c.failed
    ensures !JudgeTurn(c, waiting, samples, asWritten).1.ctl.failed
  {
    var c1 := if c.failed then c else c.(cmd := waiting);
    var side := Side(c1.cmd);
    if |waiting| > 0 && side != 0 && Detect(samples, side).Success? {
      var b := Detect(samples, side).value;
      if !(c1.last.Some? && AntiCheatVerdict(c1.last.value, b).0) && DecideWin(b) == 0 {
        OpenGameHasMove(b, "minimax");
      }
    }
  }

  /** Only b"4" and b"5" lead to a board being read; with nothing waiting
      and no failed search nothing happens, and any other command only
      replaces the stored one. */
  lemma CommandGate(c: Ctl, waiting: seq<byte>, samples: seq<byte>, asWritten: bool)
    ensures var (drained, t) := JudgeTurn(c, waiting, samples, asWritten);
      && (|waiting| == 0 && !c.failed ==> !drained && t == Turn(c, [], [], Ok))
      && (drained <==> |waiting| > 0 && !c.failed)
      && (drained && Side(waiting) == 0 ==> t == Turn(c.(cmd := waiting), [], [], Ok))
      && (t.ctl.last != c.last ==> Side(t.ctl.cmd) != 0)
  {
  }

  // ---------------------------------------------------------------------
  // The loop's variables

  class Controller {
    var lastBoard: array?<Cell>
    var failedToDecide: bool
    var cmd: seq<byte>

    predicate Valid()
      reads this
    {
      lastBoard != null ==> lastBoard.Length == 9
    }

    function State(): Ctl
      reads this, lastBoard
      requires Valid()
    {
      if lastBoard == null then Ctl(None, failedToDecide, cmd)
      else
        var g: Grid := lastBoard[..];
        Ctl(Some(g), failedToDecide, cmd)
    }

    constructor ()
      ensures Valid() && State() == Start
    {
      lastBoard := null;
      failedToDecide := false;
      cmd := [];
    }

    /** The move: place it on the board `lastBoard` also names, send the
        move frame, and judge again.  With `asWritten` the frame is built
        from a class the module never imports, so NameError ends the
        step right after the placement. */
    method Play(ser: Serial, tx: Serial?, board: array<Cell>, m: Pos, asWritten: bool) returns (st: Status)
      requires Valid() && board.Length == 9 && lastBoard == board && IsBlank(board[..], m) && tx != ser
      modifies this, ser, tx, board
      ensures Valid() && lastBoard == board
      ensures var t := if asWritten then PlayTurnAsWritten(old(State()), old(board[..]), m)
                       else PlayTurn(old(State()), old(board[..]), m);
        && State() == t.ctl && st == t.status
        && ser.incoming == old(ser.incoming) && ser.written == old(ser.written) + Emit(Frames(t.moves)).log
        && (tx != null ==> tx.incoming == old(tx.incoming) && tx.written == old(tx.written) + Emit(Frames(t.notices)).log)
    {
      ghost var t := PlayTurn(State(), board[..], m);
      board[Index(m)] := O;
      assert board[..] == Place(old(board[..]), m, O);
      if asWritten {
        return Raised(NameError);
      }
      var bm1 := m.row * 3 + m.col;
      PosOfIndex(m);
      WriteOne(Move(bm1));
      var ba := ToByteArray([0xFF, 0x03, bm1, 0xFE]);
      ser.Write(ba.value);
      failedToDecide := false;
      var winner := DecideWin(board[..]);
      if winner == 1 {
        WriteOne(Winner(1));
        assert WinnerCode("computer") == 1;
        NotifyWinner(tx, "computer");
      } else if winner == 3 {
        WriteOne(Winner(3));
        assert WinnerCode("draw") == 3;
        NotifyWinner(tx, "draw");
      } else {
        assert t.notices == [];
      }
      st := Ok;
    }

    /** The outcome dispatch: keep the board and act on the outcome. */
    method Dispatch(ser: Serial, tx: Serial?, board: array<Cell>, asWritten: bool) returns (st: Status)
      requires Valid() && board.Length == 9 && tx != ser
      modifies this, ser, tx, board
      ensures Valid()
      ensures var t := DispatchTurn(old(State()), old(board[..]), asWritten);
        && State() == t.ctl && st == t.status
        && ser.incoming == old(ser.incoming) && ser.written == old(ser.written) + Emit(Frames(t.moves)).log
        && (tx != null ==> tx.incoming == old(tx.incoming) && tx.written == old(tx.written) + Emit(Frames(t.notices)).log)
    {
      ghost var b: Grid := board[..];
      lastBoard := board;
      var winner := DecideWin(board[..]);
      st := Ok;
      if winner == -1 {
        WriteOne(Winner(2));
        assert WinnerCode("human") == 2;
        NotifyWinner(tx, "human");
      } else if winner == 3 {
        WriteOne(Winner(3));
        assert WinnerCode("draw") == 3;
        NotifyWinner(tx, "draw");
      } else if winner == 0 {
        var bm := BestMove(board, "minimax");
        if bm.None? {
          failedToDecide := true;
          return;
        }
        BestMoveChoice(b, "minimax");
        st := Play(ser, tx, board, bm.value, asWritten);
      }
    }

    /** The anti-cheat gate, then the outcome dispatch. */
    method Handle(ser: Serial, tx: Serial?, board: array<Cell>, asWritten: bool) returns (st: Status)
      requires Valid() && board.Length == 9 && lastBoard != board && tx != ser
      modifies this, ser, tx, board
      ensures Valid()
      ensures var t := HandleTurn(old(State()), old(board[..]), asWritten);
        && State() == t.ctl && st == t.status
        && ser.incoming == old(ser.incoming) && ser.written == old(ser.written) + Emit(Frames(t.moves)).log
        && (tx != null ==> tx.incoming == old(tx.incoming) && tx.written == old(tx.written) + Emit(Frames(t.notices)).log)
    {
      if lastBoard != null {
        var cheat, oldPos, newPos := AntiCheat(lastBoard, board);
        if cheat {
          AntiCheatSpec(lastBoard[..], board[..]);
          WriteOne(Cheat(oldPos, newPos));
          st := NotifyCheat(tx, oldPos, newPos);
          return;
        }
      }
      st := Dispatch(ser, tx, board, asWritten);
    }

    /** The command choice: read the board the command asks for, and
        handle it. */
    method Consider(ser: Serial, tx: Serial?, samples: seq<byte>, asWritten: bool) returns (st: Status)
      requires Valid() && tx != ser
      modifies this, ser, tx
      ensures Valid()
      ensures var t := CommandTurn(old(State()), samples, asWritten);
        && State() == t.ctl && st == t.status
        && ser.incoming == old(ser.incoming) && ser.written == old(ser.written) + Emit(Frames(t.moves)).log
        && (tx != null ==> tx.incoming == old(tx.incoming) && tx.written == old(tx.written) + Emit(Frames(t.notices)).log)
    {
      st := Ok;
      var side;
      if cmd == [0x34] {
        side := 4;
      } else if cmd == [0x35] {
        side := 5;
      } else {
        return;
      }
      var r := ReadBoard(samples, side);
      if r.Failure? {
        return Raised(r.error);
      }
      var g := r.value;
      var board := new Cell[9](i requires 0 <= i < 9 => g[i]);
      assert board[..] == g;
      st := Handle(ser, tx, board, asWritten);
    }

    /** The command gate: act when bytes are waiting or the last search
        failed, taking every waiting byte as the new command unless it
        failed. */
    method Judge(ser: Serial, tx: Serial?, samples: seq<byte>, asWritten: bool) returns (st: Status)
      requires Valid() && tx != ser
      modifies this, ser, tx
      ensures Valid()
      ensures var (drained, t) := JudgeTurn(old(State()), old(ser.incoming), samples, asWritten);
        && State() == t.ctl && st == t.status
        && ser.incoming == (if drained then [] else old(ser.incoming))
        && ser.written == old(ser.written) + Emit(Frames(t.moves)).log
        && (tx != null ==> tx.incoming == old(tx.incoming) && tx.written == old(tx.written) + Emit(Frames(t.notices)).log)
    {
      st := Ok;
      var waiting := ser.InWaiting();
      if !(waiting > 0 || failedToDecide) {
        return;
      }
      if !failedToDecide {
        cmd := ser.ReadAll();
      }
      st := Consider(ser, tx, samples, asWritten);
    }

    /** One iteration after a frame was captured: report the field and the
        pieces through `tx`, then judge.  `asWritten` selects the move step
        as the loop writes it (NameError at the move frame) or as intended. */
    method Cycle(ser: Serial, tx: Serial?, f: Frame, asWritten: bool) returns (st: Status)
      requires Valid() && tx != ser
      modifies this, ser, tx
      ensures Valid()
      ensures var survey := if tx == null then Ok else Emit(SurveyFrames(f)).status;
        && (survey != Ok ==>
              && st == survey && State() == old(State())
              && ser.incoming == old(ser.incoming) && ser.written == old(ser.written)
              && tx.written == old(tx.written) + Emit(SurveyFrames(f)).log)
        && (survey == Ok ==>
              var (drained, t) := JudgeTurn(old(State()), old(ser.incoming), f.samples, asWritten);
              && State() == t.ctl && st == t.status
              && ser.incoming == (if drained then [] else old(ser.incoming))
              && ser.written == old(ser.written) + Emit(Frames(t.moves)).log
              && (tx != null ==>
                    tx.written == old(tx.written) + Emit(SurveyFrames(f)).log + Emit(Frames(t.notices)).log))
    {
      st := Survey(tx, f);
      if st != Ok {
        return;
      }
      st := Judge(ser, tx, f.samples, asWritten);
    }
  }
}
