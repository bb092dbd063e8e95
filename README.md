# Robot tic-tac-toe controller, modelled in Dafny

The controller watches a 3x3 field and two trays of pieces through a
camera. It finds the nine field squares and the pieces beside the field,
and reports their pixel positions to a motion controller over a serial
link. When the motion controller asks, it reads the board and plays "O":

- it checks that none of its own pieces was moved since the last turn
  (the anti-cheat check);
- it judges the outcome;
- it picks a move by exhaustive minimax search (alpha-beta is also
  available), which the robot then carries out.

A second front end (`neu.py`) runs the same game with another framing of
the serial protocol and its own board reader.

The model has one module per source file:

- `Base` (base.dfy): bytes, `Option`/`Result`, pixel points, the Python
  exceptions the code can raise, and the serial port. The port is a class
  with the bytes waiting to be read and the log of every `write`.
- `Game` (game.dfy): `py_tic_tac_toe/game.py`.
  - The board is a flat `array<Cell>` of nine cells; cell (r, c) sits at
    r*3+c.
  - The searches are methods that place a piece, recurse and undo.
    Each is proved equal to a fold-shaped specification function over
    the move list, and leaves the board unchanged.
  - `math.inf` is the `Ext` type.
- `Transmission` (transmission.dfy): the outbound frames (field centres,
  pieces, winner, cheat) and `ByteArray.__str__`. Each frame kind is given
  a decoder and proved to round-trip.
- `Detection` (detection.dfy): the logic after the image processing:
  - which contours count;
  - the reordering of the nine squares after a rotation;
  - the tray boundaries ("poles");
  - the y-sorted piece lists;
  - the brightness classification of the cells.
- `Neu` (neu.dfy): the second front end.
  - the command scanner and the move and cheat frames;
  - the board reader;
  - the main loop: a class holding the loop variables, whose `Cycle`
    is proved against a one-iteration function `NeuStep`.
- `MainLoop` (main_loop.dfy): one iteration of the debug loop in
  `main.py`. The `Controller` class keeps the loop variables. Each part of
  the body is a method proved against a function producing a `Turn`: the
  new variables, the frames for each port, and how the iteration ended.
  A flag `asWritten` selects the move step as the loop writes it (it
  raises NameError at the move frame, see "## Findings") or as intended.

Two serial handles appear in the main loop, and the model keeps them apart.

- `ser` is the port that `main.py` opens itself. The move frame goes there.
- `tx` is the handle inside `transmission.py`. The field, piece, winner and
  cheat frames go there.

`main.py` imports `ser` from `transmission` and then rebinds only its own
global (main.py:12, 27-28). As written, `tx` therefore stays `None`, and
every `send_*`/`notify_*` call returns at once. The model lets `tx` be
null or a second port.

## Model

| member | source | states |
|---|---|---|
| Base.ToByteArray | transmission.py:6-9 | `bytearray(list)` succeeds exactly when every value lies in 0..255 and then holds the same values in order |
| Base.Serial.constructor | neu.py:151 | a fresh port has the given bytes waiting and nothing written |
| Base.Serial.InWaiting | neu.py:86 | `in_waiting` is the number of waiting bytes |
| Base.Serial.Read | neu.py:87 | `read(1)` returns the first waiting byte and consumes exactly it; nothing is written |
| Base.Serial.ReadAll | main.py:56 | `read_all()` returns every waiting byte and leaves none |
| Base.Serial.Write | transmission.py:31 | `write` appends one record to the log and consumes nothing |
| Game.PosOfIndex | py_tic_tac_toe/game.py:176 | row*3+col is a cell number 0..8 from which the (row, col) pair is recovered |
| Game.IndexOfPos | py_tic_tac_toe/game.py:179 | every cell number 0..8 is row*3+col of a square on the board |
| Game.CheckWinnerLines | py_tic_tac_toe/game.py:21-35 | a player wins exactly when they own one of the eight lines (three rows, three columns, two diagonals) |
| Game.CellsOfMembers | py_tic_tac_toe/game.py:49-55 | the row-major scan lists exactly the squares holding the wanted cell among the first k |
| Game.CellsOfOrdered | py_tic_tac_toe/game.py:49-55 | the scan lists squares in strictly increasing row-major order, so without repeats |
| Game.CellsOfSpec | py_tic_tac_toe/game.py:156-162 | both of the above, for any cell value (blanks or "O") |
| Game.AvailableMovesSpec | py_tic_tac_toe/game.py:49-55 | the available moves are exactly the blank squares, in row-major order |
| Game.PiecesUpToComplement | py_tic_tac_toe/game.py:116-122 | among the first k cells, pieces plus blanks make k |
| Game.PieceCountComplement | py_tic_tac_toe/game.py:116-122 | the piece count is 9 minus the number of available moves |
| Game.CellsAfterPlace | py_tic_tac_toe/game.py:68-71 | placing a piece on a blank square removes exactly that square from the blanks scanned so far |
| Game.MovesAfterPlace | py_tic_tac_toe/game.py:68-71 | a placement leaves one available move fewer, which makes the recursion terminate |
| Game.PlaceCount | py_tic_tac_toe/game.py:69 | a placement adds exactly one piece |
| Game.DecideWin | py_tic_tac_toe/game.py:38-46 | the verdict is one of -1, 0, 1, 3 |
| Game.DecideWinOutcomes | py_tic_tac_toe/game.py:38-46 | -1 exactly when "X" has a line; 1 when only "O" has one; 3 for a full board without a line; 0 otherwise; a decided board's minimax value is that verdict (a draw scores 0) |
| Game.MinimaxRange | py_tic_tac_toe/game.py:58-81 | minimax always returns -1, 0 or 1, never an infinity |
| Game.MinimaxFoldRange | py_tic_tac_toe/game.py:66-81 | the loop over the moves yields a score once it has seen a move |
| Game.AlphaBetaRange | py_tic_tac_toe/game.py:84-113 | alpha-beta always returns -1, 0 or 1 |
| Game.AlphaBetaFoldRange | py_tic_tac_toe/game.py:92-113 | the pruned loop yields a score once it has seen a move |
| Game.MinimaxFoldMonotone | py_tic_tac_toe/game.py:72 | the running maximum only grows and the running minimum only shrinks |
| Game.AlphaBetaBounds | py_tic_tac_toe/game.py:84-113 | alpha-beta is fail-soft: inside the window it equals minimax; at or below alpha it bounds minimax from above; at or above beta it bounds it from below |
| Game.AlphaBetaFoldMax | py_tic_tac_toe/game.py:92-102 | the maximising loop with cut-off keeps the fail-soft relation to the unpruned loop |
| Game.AlphaBetaFoldMin | py_tic_tac_toe/game.py:103-113 | the minimising loop with cut-off keeps the fail-soft relation to the unpruned loop |
| Game.AlphaBetaFullWindow | py_tic_tac_toe/game.py:144 | alpha-beta with window (-inf, +inf) returns exactly the minimax value |
| Game.MoveScoreIsScore | py_tic_tac_toe/game.py:140-148 | each candidate's score is -1, 0 or 1 under every method name (an unknown name scores 0) |
| Game.ChooseFoldSpec | py_tic_tac_toe/game.py:138-153 | the scan keeps the first move with the strictly highest score: nothing scores more, and every earlier move scores strictly less |
| Game.BestMoveChoice | py_tic_tac_toe/game.py:131-153 | a blank centre is taken at once; otherwise the result is None exactly when no move is available, and is a blank square with the maximal score, the earliest one among ties |
| Game.OpenGameHasMove | py_tic_tac_toe/game.py:131-153 | on an undecided board `best_move` always finds a move |
| Game.PosOfInCells | py_tic_tac_toe/game.py:156-162 | square k is in the scan of the first n cells exactly when k < n and it holds the cell |
| Game.EgoMember | py_tic_tac_toe/game.py:156-162 | a square is among the "O" positions exactly when it holds "O" |
| Game.LastGainedSkip | py_tic_tac_toe/game.py:174-176 | a cell that did not gain an "O" leaves the last gained cell unchanged |
| Game.LastGainedHere | py_tic_tac_toe/game.py:174-176 | a cell that gained an "O" becomes the last gained cell |
| Game.LastNotInSnoc | py_tic_tac_toe/game.py:174-176 | the last position not in a list, after appending one more position |
| Game.LastGainedStep | py_tic_tac_toe/game.py:174-176 | one scan step keeps "the result is the last cell so far that gained an O" |
| Game.LastGained | py_tic_tac_toe/game.py:174-179 | the loops leave in `new_pos` (`old_pos`) the last cell, in row-major order, that gained (lost) an "O" |
| Game.NoEgoNoGain | py_tic_tac_toe/game.py:170-173 | with no "O" on one board, no cell gained an "O" from it or lost one to it |
| Game.AntiCheatSpec | py_tic_tac_toe/game.py:165-183 | cheat exactly when the piece count did not rise by one and some "O" both appeared and disappeared; then the positions are the last such cells; otherwise (False, 0, 0) |
| Game.GetAvailableMoves | py_tic_tac_toe/game.py:49-55 | the nested loops return the blank squares in row-major order |
| Game.FindEgo | py_tic_tac_toe/game.py:156-162 | the nested loops return the "O" squares in row-major order |
| Game.CountPieces | py_tic_tac_toe/game.py:116-122 | the loops count the non-blank cells, which is 9 minus the available moves |
| Game.MinimaxSearch | py_tic_tac_toe/game.py:58-81 | the set-and-undo search returns the minimax value and leaves the board as it found it |
| Game.AlphaBetaSearch | py_tic_tac_toe/game.py:84-113 | the pruned search returns the alpha-beta value and leaves the board unchanged |
| Game.AlphaBetaMaxLoop | py_tic_tac_toe/game.py:92-102 | the maximising loop with cut-off computes the fold and restores the board |
| Game.AlphaBetaMinLoop | py_tic_tac_toe/game.py:103-113 | the minimising loop with cut-off computes the fold and restores the board |
| Game.AlphaBetaChild | py_tic_tac_toe/game.py:95-97 | set, recurse, undo: the child's value on the board with the piece placed; the board restored |
| Game.BestMove | py_tic_tac_toe/game.py:131-153 | `best_move` returns the chosen move and leaves the board unchanged |
| Game.AntiCheat | py_tic_tac_toe/game.py:165-183 | `anti_cheat` returns the verdict described by AntiCheatSpec |
| Transmission.Encode | transmission.py:15-92 | every outbound frame starts with 0xFF and ends with 0xFE |
| Transmission.SplitWord | transmission.py:25-28 | `>> 8` and `& 0xFF` are both bytes exactly when the value lies in 0..65535, and they recombine to it |
| Transmission.JoinSplit | transmission.py:25-28 | two bytes joined high-first split back into the same two bytes |
| Transmission.Convertible | transmission.py:30 | a frame converts to a bytearray exactly when its fields fit (indices and codes in bytes, coordinates in 16 bits) |
| Transmission.EncodeDecode | transmission.py:15-92 | every sendable message is encoded and decodes back to itself |
| Transmission.DecodeEncode | transmission.py:15-92 | every decodable byte string is the encoding of what it decodes to |
| Transmission.EmitUpTo | transmission.py:23-31 | the write loop either writes every frame or stops with ValueError after fewer |
| Transmission.EmitUpToSpec | transmission.py:23-31 | the loop succeeds exactly when every frame converts; on failure it stopped at the first bad frame; what was written is the converted frames in order |
| Transmission.EmitSpec | transmission.py:23-31 | the same for the whole list |
| Transmission.EmitStopped | transmission.py:23-31 | once a conversion raised, no later frame is written |
| Transmission.EmitPrefix | transmission.py:23-31 | writing a prefix of a list does not depend on what follows |
| Transmission.EmitConcatUpTo | transmission.py:44-62 | the second loop continues where the first ended, unless the first raised |
| Transmission.EmitConcat | transmission.py:44-62 | two write loops in sequence act as one over the concatenated lists |
| Transmission.EmitAllOk | transmission.py:23-31 | when every frame converts, the log is exactly the converted frames |
| Transmission.EmitDelimited | transmission.py:15-92 | every record written for messages is delimited by 0xFF ... 0xFE |
| Transmission.FieldFrames | transmission.py:23-29 | one frame per vertex |
| Transmission.PieceFrames | transmission.py:44-50 | one frame per piece |
| Transmission.FieldFramesDecode | transmission.py:15-33 | nine 16-bit vertices give nine written frames, frame i decoding to "field centre i at vertex i" |
| Transmission.PiecesFramesDecode | transmission.py:36-64 | up to 256 pieces per side with 16-bit coordinates: all black frames, then all white ones, each decoding to its side, index and point |
| Transmission.SendField | transmission.py:15-33 | no port or not nine vertices: nothing written; otherwise the nine frames in order, up to a conversion error |
| Transmission.SendPieces | transmission.py:36-64 | no port or no pieces: nothing written; otherwise the black frames then the white ones |
| Transmission.SendColour | transmission.py:44-53 | one side's loop writes that side's frames in order |
| Transmission.WinnerCode | transmission.py:71-80 | the code is 0..3 |
| Transmission.WinnerCodes | transmission.py:72-80 | "unsure", "computer", "human", "draw" map to 0..3; any other string leaves 0 |
| Transmission.NotifyWinner | transmission.py:67-83 | with a port, exactly one winner frame carrying the name's code is written |
| Transmission.NotifyCheat | transmission.py:86-92 | with a port, exactly one cheat frame is written (or ValueError for positions outside a byte) |
| Transmission.HexByteRoundTrip | transmission.py:12 | each byte prints as "0x" and two upper-case hex digits that read back to it |
| Transmission.HexListLayout | transmission.py:12 | the joined list has each byte's four characters at 6i, separated by ", " |
| Transmission.ByteArrayStrRoundTrip | transmission.py:11-12 | the printed form is bracketed, six characters per byte, and each byte reads back from its position |
| Neu.ScanBounds | neu.py:82-110 | the scanner consumes 0 to 4 bytes, none only on an empty buffer, and answers 0, 1, 2, 4 or 5 |
| Neu.ScanRequest | neu.py:82-110 | each well-formed request frame, whatever follows, is answered with its command and consumes exactly the frame |
| Neu.ScanSound | neu.py:82-110 | a non-zero answer comes only from a request frame that was read whole, or whose 0xFE had not arrived yet |
| Neu.RecvCmd | neu.py:82-110 | `recv_cmd` returns -1 without a port, otherwise the scanner's answer, and consumes exactly the bytes scanned |
| Neu.ReportRoundTrip | neu.py:113-133 | move and cheat frames for cells 0..8 convert and decode back |
| Neu.SendCmd | neu.py:113-121 | no move: nothing sent; a move writes the 1-based cell frame; with no port the write raises AttributeError |
| Neu.ReportCheat | neu.py:124-133 | with a port, one frame carrying both positions plus one; none without |
| Neu.NeuBoardRoles | neu.py:47-71 | side 4 marks dark (< 150) cells "O" and bright (> 240) ones "X", side 5 the reverse; other sides read nothing |
| Neu.ReadBoard | neu.py:47-71 | the cell loop of `read_board` fills the board the reading function describes |
| Neu.RespondFrames | neu.py:184-197 | handling a board sends at most one frame, a valid report written in full |
| Neu.NeuReadsOnlyWhenReset | neu.py:173-183 | without a reset in force no board is read and nothing is sent; `reset` ends cleared; the last board, error count and return code stay; a 4 or 5 still sets the side; 'q' exits and 'r' restarts |
| Neu.NeuErrorCounter | neu.py:209-214 | the error counter only grows by one, on an iteration that sent nothing, and the loop exits with -1 past ten errors |
| Neu.NeuCheatReport | neu.py:185-192 | a cheat frame names a cell that gained an "O" and one that lost it, keeps the previous board and does not exit |
| Neu.NeuMoveRecorded | neu.py:193-197 | after a move frame the remembered board is the board read, with "O" on the blank cell the frame names: one piece more |
| Neu.RespondMoveRecorded | neu.py:193-197 | the same for the reply to one board |
| Neu.NeuFramesValid | neu.py:163-214 | every iteration sends at most one frame, a valid report written in full |
| Neu.NeuLoop.constructor | neu.py:157-162 | the loop starts with no side, no reset, no previous board and no errors |
| Neu.NeuLoop.Fail | neu.py:209-214 | the `except` arm counts the error and ends the loop with -1 past ten |
| Neu.NeuLoop.Key | neu.py:198-208 | 'q' ends the loop; 'r' resets all loop variables |
| Neu.NeuLoop.Cycle | neu.py:163-214 | one iteration: consumed bytes, frames written and new loop variables are those of the one-step function |
| Neu.NeuLoop.Respond | neu.py:184-197 | handling a read board: the anti-cheat gate, the move frame, the "O" on the remembered board |
| Detection.KeptSpec | detection.py:96-106 | the kept centres are exactly those of contours with area at least 1000 that passed the square test; the sample is the last such contour |
| Detection.Scan | detection.py:96-106 | the loop with two `continue`s collects the kept centres in order and remembers the last kept contour |
| Detection.Order | detection.py:64-75 | every reordering table is a permutation of 0..8 |
| Detection.PermuteCovers | detection.py:66 | reordering nine centres by any table loses none of them: each appears in the result |
| Detection.ArrangeBlock | detection.py:45-75 | not nine centres gives []; nine gives a reordering of them by a permutation |
| Detection.ArrangeBlockCases | detection.py:57-75 | a straight grid at 60-90 degrees is mirrored left-to-right; near-square angles use the two literal tables by rectangle angle; everything else keeps the order |
| Detection.MinX | detection.py:119 | the leftmost x among the centres |
| Detection.MaxX | detection.py:120 | the rightmost x among the centres |
| Detection.FindField | detection.py:78-133 | `find_field` after the image processing returns the layout the specification function gives |
| Detection.FindFieldFound | detection.py:87-133 | found exactly for a bright frame with nine kept squares; then a permutation of them, and poles half the last kept width beyond the extreme centres, bracketing all of them; otherwise ([], [-1, -1]) |
| Detection.FoundCentres | detection.py:96-125 | with nine kept squares the layout holds those nine reordered by a permutation |
| Detection.FoundPoles | detection.py:112-121 | with nine kept squares the poles lie half the last kept width beyond the leftmost and rightmost centres and bracket every centre |
| Detection.InsertByYMultiset | detection.py:209-210 | inserting keeps every element |
| Detection.InsertByYSorted | detection.py:209-210 | inserting into a y-sorted list keeps it sorted |
| Detection.InsertByYWithY | detection.py:209-210 | inserting after the equal keys keeps the sort stable |
| Detection.SortByYSpec | detection.py:209-210 | `sorted(key=y)` is ordered by y, a permutation, and keeps equal-y pieces in input order |
| Detection.Shift | detection.py:211-214 | the shift keeps the length |
| Detection.ShiftInsert | detection.py:211-214 | a horizontal shift commutes with insertion by y |
| Detection.ShiftSort | detection.py:209-214 | shifting after sorting equals sorting after shifting |
| Detection.FindPieces | detection.py:155-237 | `find_pieces` after the image processing returns the specified lists |
| Detection.FindPiecesSpecProps | detection.py:166-214 | an unreliable region gives two empty lists; otherwise each side is its kept pieces stably sorted by y, the black ones moved right by `right` |
| Detection.DetectFailureStays | detection.py:263-269 | once the loop raised, later samples change nothing |
| Detection.ReadBoard | detection.py:243-270 | the loop of `read_board` returns what the reading function describes, including its exceptions |
| Detection.DetectSpec | detection.py:243-270 | success exactly when every marking sample has roles and a cell below 9; UnboundLocalError exactly for a side other than 4 or 5; bright cells get this side, dark ones the other, the rest stay blank |
| MainLoop.FramesDecode | main.py:88-89 | sendable messages are all written and each record decodes to its message |
| MainLoop.WriteOne | main.py:88-89 | one sendable message is one record |
| MainLoop.Report | main.py:47-52 | the field frames, then the piece frames when the left pole is set |
| MainLoop.Survey | main.py:46-52 | the survey writes the field and piece frames of the frame's layout, or nothing without a port |
| MainLoop.SurveyNoField | main.py:46-52 | with no field found, no pieces are looked for and nothing is sent |
| MainLoop.SurveyDecodes | main.py:46-52 | with a field found the nine centre frames come first and decode to the centres, followed by one frame per piece |
| MainLoop.CheatGate | main.py:67-72 | a relocated "O" is reported with the cells it left and reached; the last board stays and nothing else happens |
| MainLoop.OutcomeNotices | main.py:73-80 | a human win sends "human", a draw "draw", a computer win nothing; the board becomes the last board |
| MainLoop.MoveKept | main.py:80-96 | on an undecided board the chosen blank square gets "O" on the last board, the move frame names it, and the board is judged again |
| MainLoop.MoveFrameLostAsWritten | main.py:86-89 | as written, the "O" lands on the last board but no move frame is sent and NameError ends the loop |
| MainLoop.TurnFramesDecode | main.py:67-96 | every frame a turn produces is sendable |
| MainLoop.FailedNeverSet | main.py:54-96 | `failed_to_decide` is never set, because an undecided board always has a move |
| MainLoop.CommandGate | main.py:54-64 | nothing happens without waiting bytes; waiting bytes are drained into the command; only b"4" or b"5" can change the last board |
| MainLoop.Controller.constructor | main.py:30-35 | the loop starts with no last board, no failure and no command |
| MainLoop.Controller.Play | main.py:86-96 | the "O" lands on the board shared with the last board; as written, NameError follows with no frame sent; as intended, the move frame goes to `ser`, then the outcome notice |
| MainLoop.Controller.Dispatch | main.py:73-96 | the board becomes the last board and the outcome decides between a notice, a move (as written or as intended) and a failed search |
| MainLoop.Controller.Handle | main.py:67-96 | a relocated "O" is reported and the board dropped; otherwise the outcome dispatch, as written or as intended |
| MainLoop.Controller.Consider | main.py:58-96 | b"4" or b"5" selects the side to read the board as, a read error is raised, and the board is handled as written or as intended; anything else ends the iteration |
| MainLoop.Controller.Judge | main.py:54-96 | nothing happens unless bytes wait or the last search failed; waiting bytes are drained into the command, then it is considered, as written or as intended |
| MainLoop.Controller.Cycle | main.py:46-97 | one iteration: the survey, then the command part, as written (NameError at the move frame) or as intended; a survey that raised ends it |

## Left out

- The image processing is not modelled; its outputs are inputs to the
  model. This covers blurring, thresholds, contours, `is_square`,
  `is_circle`, `minAreaRect`, `vector_angle`, the mean brightness and the
  pixel values. The angle between the first three centres is one more
  input.
- The `not is_circle(cnt)` test in `find_pieces` never rejects a contour,
  because a non-empty pair is truthy. The model keeps only the
  `cx == -1` test.
- The `blocks_center` global of `detection.py` is never assigned in that
  file. `send_field` assigns a global of the same name in
  `transmission.py`, which is a different module. The gray values at the
  field centres are therefore a parameter of `Detection.Detect`. As the
  files stand, that list is empty and the board always reads blank.
- `neu.find_field` is left out: it is rectangle geometry with rotation
  matrices over floats. `Neu.NeuBoard` takes the nine mean brightness
  values instead, or `None` when no field was found.
- A scanned command stands until a byte other than 0xFE follows it: when
  the closing byte has not arrived yet, the command is still returned.
- Printing, `imshow`, `waitKey` and the frame-rate counter are left out.
  The key code is a parameter of the Neu loop. In `main.py` it is not
  modelled: 'q' only stops the loop.
- Camera set-up and failed frame reads are left out (main.py:15-29, 36-45,
  neu.py:137-148, 165-172). So are the non-debug branch of `main.py`
  (lines 112-122) and the opening of the serial port.
- `random_drop`, `print_board` and the interactive `game.main` are left
  out; `best_move` never calls them.
- `add_header.py` is a source-header tool and is not part of this model.
- `Game.MinimaxSearch`, `Game.AlphaBetaSearch`: the `depth` argument is accepted
  and ignored, as in the source.
- `MainLoop.Controller.Cycle`: a ValueError from the survey ends the
  iteration with the loop variables untouched. The source raises out of
  `main` there, so there is nothing left to model after it.

## Findings

| source | as written | input that shows it | evidently intended | confidence | as-written member | corrected member |
|---|---|---|---|---|---|---|
| main.py:88 | `ByteArray([0xFF, 0x03, bm1, 0xFE])` names a class `main.py` never imports. The "O" is already on the board shared with `last_board` (lines 73, 86), and the move frame is never written. | any undecided board read after b"4" or b"5", e.g. the empty board (the centre is chosen) | write the move frame to `ser`, then judge the board again; the `Controller` methods take a flag choosing between this and the step as written | high, not executed | MainLoop.MoveFrameLostAsWritten | MainLoop.MoveKept |
