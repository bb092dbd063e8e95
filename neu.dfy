/** The second controller front end: it scans short commands from the
    motion controller, reads the board by brightness, answers with a move
    frame or a cheat report, and keeps its command, reset and error state
    across loop iterations. Cells are numbered 1..9 on this link. */
module Neu {
  import opened Base
  import opened Game
  import opened Transmission

  // ---------------------------------------------------------------------
  // Inbound commands

  /** The requests the motion controller sends. `Resume` carries any third
      byte other than 0xA2. */
  datatype Request = AskFirst | AskSecond | Reset | Resume(arg: byte)

  predicate ValidRequest(r: Request) { r.Resume? ==> r.arg != 0xA2 }

  function RequestFrame(r: Request): seq<byte>
  {
    match r
    case AskFirst => [0xFF, 0xB1, 0xFE]
    case AskSecond => [0xFF, 0xC1, 0xFE]
    case Reset => [0xFF, 0xA1, 0xA2, 0xFE]
    case Resume(x) => [0xFF, 0xA1, x, 0xFE]
  }

  /** The value `recv_cmd` returns for a request. */
  function RequestCode(r: Request): int
  {
    match r
    case AskFirst => 4
    case AskSecond => 5
    case Reset => 2
    case Resume(_) => 1
  }

  /** The sub-opcode stage after a leading 0xFF: the command and how many
      bytes the stage has consumed so far. */
  function Opcode(buf: seq<byte>): (int, nat)
    requires |buf| >= 2
  {
    if buf[1] == 0xB1 then (4, 2)
    else if buf[1] == 0xC1 then (5, 2)
    else if buf[1] == 0xA1 then
      if |buf| == 2 then (0, 2)
      else if buf[2] == 0xA2 then (2, 3)
      else (1, 3)
    else (0, 2)
  }

  /** What one `recv_cmd` call returns for the waiting bytes `buf`, and
      how many of them it consumes. A waiting byte after the sub-opcode
      stage must be 0xFE or the command is dropped; when nothing is waiting
      there the command stands. */
  function Scan(buf: seq<byte>): (int, nat)
  {
    if buf == [] then (0, 0)
    else if buf[0] != 0xFF || |buf| == 1 then (0, 1)
    else
      var (cmd, used) := Opcode(buf);
      if used < |buf| then (if buf[used] == 0xFE then cmd else 0, used + 1)
      else (cmd, used)
  }

  /** One call consumes at most four bytes, consumes nothing only when
      nothing is waiting, and returns one of 0, 1, 2, 4, 5. */
  lemma ScanBounds(buf: seq<byte>)
    ensures var (cmd, n) := Scan(buf);
      && n <= |buf| && n <= 4 && (n == 0 <==> buf == [])
      && (cmd == 0 || cmd == 1 || cmd == 2 || cmd == 4 || cmd == 5)
  {
  }

  /** A request frame is read back as its code and consumes exactly the
      frame, whatever follows it. */
  lemma ScanRequest(r: Request, rest: seq<byte>)
    requires ValidRequest(r)
    ensures Scan(RequestFrame(r) + rest) == (RequestCode(r), |RequestFrame(r)|)
  {
    var buf := RequestFrame(r) + rest;
    assert buf[0] == 0xFF && buf[1] == RequestFrame(r)[1];
    assert buf[|RequestFrame(r)| - 1] == 0xFE;
    match r
    case Reset => assert buf[2] == 0xA2;
    case Resume(x) => assert buf[2] == x;
    case _ =>
  }

  /** Conversely, a non-zero result was read from a whole request frame,
      or from a request frame whose 0xFE had not arrived yet and nothing
      else was waiting. */
  lemma ScanSound(buf: seq<byte>)
    ensures var (cmd, n) := Scan(buf);
      cmd != 0 ==> exists r :: (ValidRequest(r) && RequestCode(r) == cmd &&
        (buf[..n] == RequestFrame(r) || (n == |buf| && buf + [0xFE] == RequestFrame(r))))
  {
    var (cmd, n) := Scan(buf);
    if cmd != 0 {
      var r := if buf[1] == 0xB1 then AskFirst
               else if buf[1] == 0xC1 then AskSecond
               else if buf[2] == 0xA2 then Reset
               else Resume(buf[2]);
      assert ValidRequest(r) && RequestCode(r) == cmd;
      if n == |RequestFrame(r)| {
        assert buf[..n] == RequestFrame(r);
      } else {
        assert buf + [0xFE] == RequestFrame(r);
      }
    }
  }

  /** `recv_cmd`: -1 without a port; otherwise the scan above, reading one
      byte at a time while `in_waiting` says one is there. */
  method RecvCmd(ser: Serial?) returns (ret: int)
    modifies ser
    ensures ser == null ==> ret == -1
    ensures ser != null ==>
      var (cmd, n) := Scan(old(ser.incoming));
      && ret == cmd && n <= |old(ser.incoming)|
      && ser.incoming == old(ser.incoming)[n..] && ser.written == old(ser.written)
  {
    if ser == null {
      return -1;
    }
    ghost var buf := ser.incoming;
    ret := 0;
    var waiting := ser.InWaiting();
    if waiting > 0 {
      var bt := ser.Read();
      if bt == 0xFF {
        waiting := ser.InWaiting();
        if waiting > 0 {
          bt := ser.Read();
          if bt == 0xB1 {
            ret := 4;
          } else if bt == 0xC1 {
            ret := 5;
          } else if bt == 0xA1 {
            waiting := ser.InWaiting();
            if waiting > 0 {
              bt := ser.Read();
              if bt == 0xA2 {
                ret := 2;
              } else {
                ret := 1;
              }
            }
          }
          waiting := ser.InWaiting();
          if waiting > 0 {
            bt := ser.Read();
            if bt != 0xFE {
              ret := 0;
            }
          }
        }
      }
    }
    var (cmd, n) := Scan(buf);
    assert ser.incoming == buf[n..];
  }

  // ---------------------------------------------------------------------
  // Outbound reports

  /** What this front end sends: a move to cell `cell` (0-based) or a
      cheat report with the two arguments of `report_cheat`. */
  datatype Report = MoveTo(cell: int) | Relocated(oldPos: int, newPos: int)

  predicate IsCell(k: int) { 0 <= k < 9 }

  predicate ValidReport(r: Report)
  {
    match r
    case MoveTo(c) => IsCell(c)
    case Relocated(o, n) => IsCell(o) && IsCell(n)
  }

  /** The values of the frame, cells numbered from 1; a cheat report has
      no opcode byte. */
  function ReportFrame(r: Report): seq<int>
  {
    match r
    case MoveTo(c) => [0xFF, 0xA1, c + 1, 0xFE]
    case Relocated(o, n) => [0xFF, o + 1, n + 1, 0xFE]
  }

  function DecodeReport(bs: seq<byte>): Option<Report>
  {
    if |bs| != 4 || bs[0] != 0xFF || bs[3] != 0xFE || bs[1] == 0 || bs[2] == 0 then None
    else if bs[1] == 0xA1 then Some(MoveTo(bs[2] as int - 1))
    else Some(Relocated(bs[1] as int - 1, bs[2] as int - 1))
  }

  /** Reports about board cells always convert, and decode to themselves:
      a cheat report's first number (1..9) never collides with the 0xA1
      opcode of a move frame. */
  lemma ReportRoundTrip(r: Report)
    requires ValidReport(r)
    ensures ToByteArray(ReportFrame(r)).Some?
    ensures DecodeReport(ToByteArray(ReportFrame(r)).value) == Some(r)
  {
    var f := ReportFrame(r);
    assert AllBytes(f);
  }

  /** `send_cmd`: nothing for `None`; otherwise `[FF, A1, row*3+col+1, FE]`.
      It does not check the port, so an unset one raises AttributeError. */
  method SendCmd(ser: Serial?, move: Option<Pos>) returns (st: Status)
    modifies ser
    ensures ser != null ==> ser.incoming == old(ser.incoming)
    ensures move.None? ==> st == Ok && (ser != null ==> ser.written == old(ser.written))
    ensures move.Some? && ser != null ==>
      var e := Emit([ReportFrame(MoveTo(Index(move.value)))]);
      ser.written == old(ser.written) + e.log && st == e.status
    ensures move.Some? && ser == null ==>
      st == if ToByteArray(ReportFrame(MoveTo(Index(move.value)))).Some? then Raised(AttributeError) else Raised(ValueError)
  {
    if move.None? {
      return Ok;
    }
    var sent := [0xFF, 0xA1];
    sent := sent + [move.value.row * 3 + move.value.col + 1];
    sent := sent + [0xFE];
    assert sent == ReportFrame(MoveTo(Index(move.value)));
    var bytes := ToByteArray(sent);
    if bytes.None? {
      return Raised(ValueError);
    }
    if ser == null {
      return Raised(AttributeError);
    }
    ser.Write(bytes.value);
    st := Ok;
  }

  /** `report_cheat(old_pos, new_pos)`: `[FF, old+1, new+1, FE]`. */
  method ReportCheat(ser: Serial?, oldPos: int, newPos: int) returns (st: Status)
    modifies ser
    ensures ser == null ==> st == Ok
    ensures ser != null ==>
      var e := Emit([ReportFrame(Relocated(oldPos, newPos))]);
      ser.written == old(ser.written) + e.log && st == e.status && ser.incoming == old(ser.incoming)
  {
    if ser == null {
      return Ok;
    }
    var sent := [0xFF];
    sent := sent + [oldPos + 1];
    sent := sent + [newPos + 1];
    sent := sent + [0xFE];
    assert sent == ReportFrame(Relocated(oldPos, newPos));
    var bytes := ToByteArray(sent);
    if bytes.None? {
      return Raised(ValueError);
    }
    ser.Write(bytes.value);
    st := Ok;
  }

  // ---------------------------------------------------------------------
  // Reading the board by brightness

  /** The sides for `me`: 4 plays "O" against "X", 5 the reverse. */
  function Roles(me: int): Option<(Cell, Cell)>
  {
    if me == 4 then Some((O, X))
    else if me == 5 then Some((X, O))
    else None
  }

  /** A dark centre (< 150) holds our own piece, a bright one (> 240) the
      opponent's. */
  function Classify(brightness: real, ego: Cell, tu: Cell): Cell
  {
    if brightness < 150.0 then ego
    else if brightness > 240.0 then tu
    else Empty
  }

  /** What `read_board(frame, me)` returns, given the mean brightness
      around each of the nine field centres (`None` when no field was
      found). */
  function NeuBoard(samples: Option<seq<real>>, me: int): Option<Grid>
    requires samples.Some? ==> |samples.value| == 9
  {
    if samples.None? then None
    else
      match Roles(me)
      case None => None
      case Some((ego, tu)) =>
        var g: Grid := seq(9, k requires 0 <= k < 9 => Classify(samples.value[k], ego, tu));
        Some(g)
  }

  function Opponent(c: Cell): Cell
  {
    match c
    case Empty => Empty
    case X => O
    case O => X
  }

  /** Reading as side 5 gives side 4's board with "X" and "O" exchanged;
      any other side reads nothing. */
  lemma NeuBoardRoles(samples: Option<seq<real>>, me: int)
    requires samples.Some? ==> |samples.value| == 9
    ensures me != 4 && me != 5 ==> NeuBoard(samples, me).None?
    ensures NeuBoard(samples, 4).Some? <==> samples.Some?
    ensures samples.Some? ==> forall k :: 0 <= k < 9 ==>
      NeuBoard(samples, 5).value[k] == Opponent(NeuBoard(samples, 4).value[k])
    ensures samples.Some? ==> forall k :: 0 <= k < 9 ==>
      (NeuBoard(samples, 4).value[k] == O <==> samples.value[k] < 150.0) &&
      (NeuBoard(samples, 4).value[k] == X <==> samples.value[k] > 240.0)
  {
  }

  /** `read_board`: fill a blank board cell by cell, `idx` going to
      `(idx // 3, idx % 3)`. */
  method ReadBoard(samples: Option<seq<real>>, me: int) returns (board: Option<Grid>)
    requires samples.Some? ==> |samples.value| == 9
    ensures board == NeuBoard(samples, me)
  {
    if samples.None? {
      return None;
    }
    var ego, tu;
    if me == 4 {
      ego, tu := O, X;
    } else if me == 5 {
      ego, tu := X, O;
    } else {
      return None;
    }
    var field := samples.value;
    var cells := new Cell[9](_ => Empty);
    for idx := 0 to 9
      invariant forall k :: 0 <= k < idx ==> cells[k] == Classify(field[k], ego, tu)
      invariant forall k :: idx <= k < 9 ==> cells[k] == Empty
    {
      var brightness := field[idx];
      assert idx / 3 * 3 + idx % 3 == idx;
      if brightness < 150.0 {
        cells[idx / 3 * 3 + idx % 3] := ego;
      } else if brightness > 240.0 {
        cells[idx / 3 * 3 + idx % 3] := tu;
      }
    }
    ghost var g: Grid := seq(9, k requires 0 <= k < 9 => Classify(field[k], ego, tu));
    assert cells[..] == g;
    board := Some(cells[..]);
  }

  // ---------------------------------------------------------------------
  // The main loop's state

  /** The variables `main` keeps across iterations. */
  datatype NeuState = NeuState(ques: int, reset: bool, lastBoard: Option<Grid>, errTimes: nat, retCode: int)

  const NeuStart := NeuState(0, false, None, 0, 0)

  /** `cv.waitKey(1) & 0xFF` compared with `ord('q')` and `ord('r')`. */
  const KeyQuit := 'q' as int
  const KeyRestart := 'r' as int

  /** One iteration: the new state, the bytes `recv_cmd` consumed, the
      frames written and whether the loop ends. */
  datatype NeuCycle = NeuCycle(state: NeuState, consumed: nat, sent: seq<seq<int>>, exit: bool)

  /** The command flags: 2 sets `reset`, 4 or 5 become `ques`, anything
      else clears `reset`. */
  function ApplyCommand(s: NeuState, cmd: int): NeuState
  {
    if cmd == 2 then s.(reset := true)
    else if cmd == 4 || cmd == 5 then s.(ques := cmd)
    else s.(reset := false)
  }

  /** The key test at the end of an iteration that raised nothing. */
  function ApplyKey(s: NeuState, key: int): (NeuState, bool)
  {
    if key == KeyQuit then (s, true)
    else if key == KeyRestart then (NeuStart, false)
    else (s, false)
  }

  /** The `except` arm: count the error and give up with -1 after more
      than ten. */
  function Failed(s: NeuState): (NeuState, bool)
  {
    var errs := s.errTimes + 1;
    (s.(errTimes := errs, retCode := if errs > 10 then -1 else s.retCode), errs > 10)
  }

  /** What an iteration does once it holds a board, and whether it ends
      the loop. */
  datatype Reply = Reply(state: NeuState, sent: seq<seq<int>>, exit: bool)

  /** With a board read: report a relocated "O" and go on (`continue`), or
      send the chosen move and remember the board with it; with no move,
      indexing `None` raises TypeError into the `except` arm. */
  function NeuRespond(s: NeuState, b: Grid, key: int): Reply
  {
    if s.lastBoard.Some? && AntiCheatVerdict(s.lastBoard.value, b).0 then
      var (_, oldPos, newPos) := AntiCheatVerdict(s.lastBoard.value, b);
      Reply(s, [ReportFrame(Relocated(newPos, oldPos))], false)
    else
      BestMoveChoice(b, "minimax");
      match ChooseMove(b, "minimax")
      case None =>
        var (s2, exit) := Failed(s);
        Reply(s2, [], exit)
      case Some(m) =>
        var (s2, exit) := ApplyKey(s.(lastBoard := Some(Place(b, m, O))), key);
        Reply(s2, [ReportFrame(MoveTo(Index(m)))], exit)
  }

  /** One pass of the `while True` body once a frame was captured. */
  function NeuStep(s: NeuState, incoming: seq<byte>, samples: Option<seq<real>>, key: int): NeuCycle
    requires samples.Some? ==> |samples.value| == 9
  {
    var (cmd, used) := Scan(incoming);
    var s1 := ApplyCommand(s, cmd);
    var board := if s1.reset then NeuBoard(samples, s1.ques) else None;
    if board.None? then
      var (s2, exit) := ApplyKey(s1, key);
      NeuCycle(s2, used, [], exit)
    else
      var r := NeuRespond(s1, board.value, key);
      NeuCycle(r.state, used, r.sent, r.exit)
  }

  /** A reply sends at most one frame, a well-formed report about board
      cells, which is written completely. */
  lemma RespondFrames(s: NeuState, b: Grid, key: int)
    ensures var r := NeuRespond(s, b, key);
      && |r.sent| <= 1
      && Emit(r.sent).status == Ok && |Emit(r.sent).log| == |r.sent|
      && forall i :: 0 <= i < |r.sent| ==> exists rep :: ValidReport(rep) && r.sent[i] == ReportFrame(rep)
  {
    var r := NeuRespond(s, b, key);
    if s.lastBoard.Some? && AntiCheatVerdict(s.lastBoard.value, b).0 {
      AntiCheatSpec(s.lastBoard.value, b);
      var (_, o, n) := AntiCheatVerdict(s.lastBoard.value, b);
      ReportRoundTrip(Relocated(n, o));
      assert r.sent[0] == ReportFrame(Relocated(n, o));
    } else if ChooseMove(b, "minimax").Some? {
      BestMoveChoice(b, "minimax");
      var m := ChooseMove(b, "minimax").value;
      PosOfIndex(m);
      ReportRoundTrip(MoveTo(Index(m)));
      assert r.sent[0] == ReportFrame(MoveTo(Index(m)));
    }
  }

  /** A board is read, and anything sent, only while `reset` is set after
      the command: a cycle whose command is not 2, and not 4 or 5 while
      `reset` was already set, reads no board and sends nothing; `reset`
      ends cleared, the last board, error count and return code stay, a 4
      or 5 still sets the side, 'q' exits and 'r' restarts. */
  lemma NeuReadsOnlyWhenReset(s: NeuState, incoming: seq<byte>, samples: Option<seq<real>>, key: int)
    requires samples.Some? ==> |samples.value| == 9
    ensures var cmd := Scan(incoming).0;
      var c := NeuStep(s, incoming, samples, key);
      !(cmd == 2 || ((cmd == 4 || cmd == 5) && s.reset)) ==>
        && c.sent == []
        && (key != KeyRestart ==> !c.state.reset && c.state.lastBoard == s.lastBoard
                                  && c.state.errTimes == s.errTimes && c.state.retCode == s.retCode
                                  && c.state.ques == (if cmd == 4 || cmd == 5 then cmd else s.ques))
        && (key == KeyRestart ==> c.state == NeuStart)
        && (c.exit <==> key == KeyQuit)
  {
  }

  /** `err_times` only grows, by one per failed iteration, until the 'r'
      key clears it; the loop ends with -1 exactly when it passes 10. */
  lemma NeuErrorCounter(s: NeuState, incoming: seq<byte>, samples: Option<seq<real>>, key: int)
    requires samples.Some? ==> |samples.value| == 9
    ensures var c := NeuStep(s, incoming, samples, key);
      && (c.state.errTimes == s.errTimes || c.state.errTimes == s.errTimes + 1 || (key == KeyRestart && c.state == NeuStart))
      && (c.state.errTimes == s.errTimes + 1 ==> c.sent == [] && (c.exit <==> c.state.errTimes > 10))
      && (c.state.errTimes == s.errTimes + 1 && c.exit ==> c.state.retCode == -1)
  {
    var (cmd, used) := Scan(incoming);
    var s1 := ApplyCommand(s, cmd);
    var board := if s1.reset then NeuBoard(samples, s1.ques) else None;
    if board.Some? && !(s1.lastBoard.Some? && AntiCheatVerdict(s1.lastBoard.value, board.value).0) {
      BestMoveChoice(board.value, "minimax");
    }
  }

  /** A cheat report carries the cell the "O" moved TO first, then the
      cell it left (the loop swaps `report_cheat`'s arguments); the last
      board stays as it was and the loop goes on. */
  lemma NeuCheatReport(s: NeuState, incoming: seq<byte>, samples: Option<seq<real>>, key: int)
    requires samples.Some? ==> |samples.value| == 9
    ensures var c := NeuStep(s, incoming, samples, key);
      forall o, n :: IsCell(o) && IsCell(n) && c.sent == [ReportFrame(Relocated(o, n))] ==>
        && c.state.lastBoard == s.lastBoard && s.lastBoard.Some? && !c.exit
        && var b := NeuBoard(samples, c.state.ques).value;
           Gained(s.lastBoard.value, b, o) && Gained(b, s.lastBoard.value, n)
  {
    var c := NeuStep(s, incoming, samples, key);
    var (cmd, used) := Scan(incoming);
    var s1 := ApplyCommand(s, cmd);
    var board := if s1.reset then NeuBoard(samples, s1.ques) else None;
    if board.Some? && s1.lastBoard.Some? {
      AntiCheatSpec(s1.lastBoard.value, board.value);
    }
    forall o, n | IsCell(o) && IsCell(n) && c.sent == [ReportFrame(Relocated(o, n))]
      ensures c.state.lastBoard == s.lastBoard && s.lastBoard.Some? && !c.exit
      ensures var b := NeuBoard(samples, c.state.ques).value;
        Gained(s.lastBoard.value, b, o) && Gained(b, s.lastBoard.value, n)
    {
      assert ReportFrame(Relocated(o, n))[1] != 0xA1;
    }
  }

  /** After a move frame, the remembered board is the board just read
      with the computer's "O" on the cell the frame names, which was blank:
      one piece more than was read. */
  lemma NeuMoveRecorded(s: NeuState, incoming: seq<byte>, samples: Option<seq<real>>, key: int)
    requires samples.Some? ==> |samples.value| == 9
    requires key != KeyRestart
    ensures var c := NeuStep(s, incoming, samples, key);
      forall k :: c.sent == [ReportFrame(MoveTo(k))] ==>
        var b := NeuBoard(samples, c.state.ques);
        && b.Some? && IsCell(k) && b.value[k] == Empty
        && c.state.lastBoard.Some? && c.state.lastBoard.value[k] == O
        && (forall j :: 0 <= j < 9 && j != k ==> c.state.lastBoard.value[j] == b.value[j])
        && PieceCount(c.state.lastBoard.value) == PieceCount(b.value) + 1
  {
    var (cmd, used) := Scan(incoming);
    var s1 := ApplyCommand(s, cmd);
    var board := if s1.reset then NeuBoard(samples, s1.ques) else None;
    if board.Some? {
      RespondMoveRecorded(s1, board.value, key);
    }
  }

  /** The same, for the reply to one board. */
  lemma RespondMoveRecorded(s: NeuState, b: Grid, key: int)
    requires key != KeyRestart
    ensures var r := NeuRespond(s, b, key);
      forall k :: r.sent == [ReportFrame(MoveTo(k))] ==>
        && r.state.ques == s.ques && IsCell(k) && b[k] == Empty
        && r.state.lastBoard.Some? && r.state.lastBoard.value[k] == O
        && (forall j :: 0 <= j < 9 && j != k ==> r.state.lastBoard.value[j] == b[j])
        && PieceCount(r.state.lastBoard.value) == PieceCount(b) + 1
  {
    var r := NeuRespond(s, b, key);
    if s.lastBoard.Some? && AntiCheatVerdict(s.lastBoard.value, b).0 {
      AntiCheatSpec(s.lastBoard.value, b);
      var (_, o, n) := AntiCheatVerdict(s.lastBoard.value, b);
      assert r.sent == [ReportFrame(Relocated(n, o))];
      assert forall k :: r.sent != [ReportFrame(MoveTo(k))] by {
        forall k ensures r.sent != [ReportFrame(MoveTo(k))] {
          assert ReportFrame(Relocated(n, o))[1] != ReportFrame(MoveTo(k))[1];
        }
      }
    } else {
      BestMoveChoice(b, "minimax");
      if ChooseMove(b, "minimax").Some? {
        var m := ChooseMove(b, "minimax").value;
        forall k | r.sent == [ReportFrame(MoveTo(k))] ensures k == Index(m) {
          assert ReportFrame(MoveTo(Index(m)))[2] == ReportFrame(MoveTo(k))[2];
        }
        PlaceCount(b, m, O);
      }
    }
  }

  /** Every cycle sends at most one frame, and it is a well-formed report
      about board cells. */
  lemma NeuFramesValid(s: NeuState, incoming: seq<byte>, samples: Option<seq<real>>, key: int)
    requires samples.Some? ==> |samples.value| == 9
    ensures var c := NeuStep(s, incoming, samples, key);
      && |c.sent| <= 1
      && Emit(c.sent).status == Ok && |Emit(c.sent).log| == |c.sent|
      && forall i :: 0 <= i < |c.sent| ==> exists r :: ValidReport(r) && c.sent[i] == ReportFrame(r)
  {
    var (cmd, used) := Scan(incoming);
    var s1 := ApplyCommand(s, cmd);
    var board := if s1.reset then NeuBoard(samples, s1.ques) else None;
    if board.Some? {
      RespondFrames(s1, board.value, key);
    }
  }

  /** The loop's variables, updated in place. */
  class NeuLoop {
    var ques: int
    var reset: bool
    var lastBoard: Option<Grid>
    var errTimes: nat
    var retCode: int

    function State(): NeuState
      reads this
    {
      NeuState(ques, reset, lastBoard, errTimes, retCode)
    }

    constructor ()
      ensures State() == NeuStart
    {
      ques, reset, lastBoard, errTimes, retCode := 0, false, None, 0, 0;
    }

    /** `except Exception`: count the error. */
    method Fail() returns (exit: bool)
      modifies this
      ensures (State(), exit) == Failed(old(State()))
    {
      errTimes := errTimes + 1;
      if errTimes > 10 {
        retCode := -1;
        return true;
      }
      exit := false;
    }

    /** The end of an iteration: 'q' leaves the loop, 'r' starts over. */
    method Key(key: int) returns (exit: bool)
      modifies this
      ensures (State(), exit) == ApplyKey(old(State()), key)
    {
      if key == KeyQuit {
        return true;
      } else if key == KeyRestart {
        ques := 0;
        reset := false;
        lastBoard := None;
        retCode := 0;
        errTimes := 0;
      }
      exit := false;
    }

    /** One pass of the loop body after a frame was captured, with the
        brightness around the field centres standing for the frame. */
    method Cycle(ser: Serial, samples: Option<seq<real>>, key: int) returns (exit: bool)
      requires samples.Some? ==> |samples.value| == 9
      modifies this, ser
      ensures var c := NeuStep(old(State()), old(ser.incoming), samples, key);
        && State() == c.state && exit == c.exit
        && ser.incoming == old(ser.incoming)[c.consumed..]
        && ser.written == old(ser.written) + Emit(c.sent).log
    {
      var cmd := RecvCmd(ser);
      if cmd == 2 {
        reset := true;
      } else if cmd == 4 || cmd == 5 {
        ques := cmd;
      } else {
        reset := false;
      }
      var board: Option<Grid> := None;
      if reset {
        board := ReadBoard(samples, ques);
      }
      if board.Some? {
        exit := Respond(ser, board.value, key);
      } else {
        exit := Key(key);
      }
    }

    /** The part of the loop body that handles a board that was read. */
    method Respond(ser: Serial, b: Grid, key: int) returns (exit: bool)
      modifies this, ser
      ensures var r := NeuRespond(old(State()), b, key);
        && State() == r.state && exit == r.exit
        && ser.incoming == old(ser.incoming)
        && ser.written == old(ser.written) + Emit(r.sent).log
    {
      RespondFrames(State(), b, key);
      var cur := new Cell[9](i requires 0 <= i < 9 => b[i]);
      assert cur[..] == b;
      if lastBoard.Some? {
        var lb := lastBoard.value;
        var last := new Cell[9](i requires 0 <= i < 9 => lb[i]);
        assert last[..] == lb;
        var cheat, oldPos, newPos := AntiCheat(last, cur);
        if cheat {
          var st := ReportCheat(ser, newPos, oldPos);
          return false;
        }
      }
      var move := BestMove(cur, "minimax");
      var st := SendCmd(ser, move);
      if move.None? {
        exit := Fail();
        return;
      }
      BestMoveChoice(b, "minimax");
      cur[Index(move.value)] := O;
      assert cur[..] == Place(b, move.value, O);
      lastBoard := Some(cur[..]);
      exit := Key(key);
    }
  }
}
