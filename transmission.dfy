/** The frames the vision side sends to the motion controller: the nine
    field centres, the piece positions, the winner notice and the cheat
    notice. Every frame opens with 0xFF and closes with 0xFE; a 16-bit pixel
    coordinate travels as its high byte followed by its low byte. The serial
    handle is optional (`ser` may be unset) and is reduced to its write log. */
module Transmission {
  import opened Base

  const Head := 0xFF
  const Tail := 0xFE

  /** One frame of the protocol, by meaning. `Move` is the frame the
      per-cycle step sends for the computer's move. */
  datatype Message =
    | Field(idx: int, at: Point)
    | Piece(side: int, idx: int, at: Point)
    | Winner(code: int)
    | Cheat(oldPos: int, newPos: int)
    | Move(cell: int)

  /** Side bytes of `send_pieces`. */
  const Black := 0x01
  const White := 0x02

  /** `v >> 8` and `v & 0xFF`. Python's shift floors and its mask keeps the
      two's-complement low byte, which for a divisor of 256 are Dafny's
      Euclidean `/` and `%`, negative `v` included. */
  function High(v: int): int { v / 256 }
  function Low(v: int): int { v % 256 }

  /** The list of values the source builds before converting it with
      `ByteArray(sent)`. */
  function Encode(m: Message): (r: seq<int>)
    ensures |r| >= 4 && r[0] == Head && r[|r| - 1] == Tail
  {
    match m
    case Field(idx, at) => [Head, 0x02, idx, High(at.x), Low(at.x), High(at.y), Low(at.y), Tail]
    case Piece(side, idx, at) => [Head, 0x01, side, idx, High(at.x), Low(at.x), High(at.y), Low(at.y), Tail]
    case Winner(code) => [Head, 0x04, code, Tail]
    case Cheat(o, n) => [Head, 0x05, o, n, Tail]
    case Move(cell) => [Head, 0x03, cell, Tail]
  }

  predicate IsWord(v: int) { 0 <= v < 65536 }

  /** Every value of the message fits the byte it travels in. */
  predicate Sendable(m: Message)
  {
    match m
    case Field(idx, at) => IsByteValue(idx) && IsWord(at.x) && IsWord(at.y)
    case Piece(side, idx, at) => IsByteValue(side) && IsByteValue(idx) && IsWord(at.x) && IsWord(at.y)
    case Winner(code) => IsByteValue(code)
    case Cheat(o, n) => IsByteValue(o) && IsByteValue(n)
    case Move(cell) => IsByteValue(cell)
  }

  function Word(hi: byte, lo: byte): int { hi as int * 256 + lo as int }

  /** The receiving side's reading of one written frame. */
  function Decode(bs: seq<byte>): Option<Message>
  {
    if |bs| < 4 || bs[0] as int != Head || bs[|bs| - 1] as int != Tail then None
    else if |bs| == 8 && bs[1] == 0x02 then Some(Field(bs[2] as int, Point(Word(bs[3], bs[4]), Word(bs[5], bs[6]))))
    else if |bs| == 9 && bs[1] == 0x01 then Some(Piece(bs[2] as int, bs[3] as int, Point(Word(bs[4], bs[5]), Word(bs[6], bs[7]))))
    else if |bs| == 4 && bs[1] == 0x04 then Some(Winner(bs[2] as int))
    else if |bs| == 5 && bs[1] == 0x05 then Some(Cheat(bs[2] as int, bs[3] as int))
    else if |bs| == 4 && bs[1] == 0x03 then Some(Move(bs[2] as int))
    else None
  }

  /** For 0 <= v < 65536 the split bytes are bytes and `(hi << 8) | lo == v`;
      outside that range one of them is not a byte. */
  lemma SplitWord(v: int)
    ensures IsByteValue(High(v)) && IsByteValue(Low(v)) <==> IsWord(v)
    ensures IsWord(v) ==> High(v) * 256 + Low(v) == v
  {
  }

  /** Joining two bytes and splitting the word again gives them back. */
  lemma JoinSplit(hi: byte, lo: byte)
    ensures IsWord(Word(hi, lo)) && High(Word(hi, lo)) == hi as int && Low(Word(hi, lo)) == lo as int
  {
  }

  /** The values of a byte string, as the list the source would build. */
  function Ints(bs: seq<byte>): (r: seq<int>)
    ensures |r| == |bs| && forall i :: 0 <= i < |bs| ==> r[i] == bs[i] as int
  {
    seq(|bs|, i requires 0 <= i < |bs| => bs[i] as int)
  }

  lemma IntsBytes(bs: seq<byte>)
    ensures ToByteArray(Ints(bs)) == Some(bs)
  {
    var r := ToByteArray(Ints(bs));
    assert r.Some?;
    assert r.value == bs;
  }

  /** `ByteArray(sent)` succeeds exactly for sendable messages. */
  lemma {:induction false} Convertible(m: Message)
    ensures ToByteArray(Encode(m)).Some? <==> Sendable(m)
  {
    var e := Encode(m);
    match m
    case Field(idx, at) =>
      SplitWord(at.x); SplitWord(at.y);
      assert AllBytes(e) <==> IsByteValue(e[2]) && IsByteValue(e[3]) && IsByteValue(e[4]) && IsByteValue(e[5]) && IsByteValue(e[6]);
    case Piece(side, idx, at) =>
      SplitWord(at.x); SplitWord(at.y);
      assert AllBytes(e) <==> IsByteValue(e[2]) && IsByteValue(e[3]) && IsByteValue(e[4]) && IsByteValue(e[5]) && IsByteValue(e[6]) && IsByteValue(e[7]);
    case Winner(code) =>
      assert AllBytes(e) <==> IsByteValue(e[2]);
    case Cheat(o, n) =>
      assert AllBytes(e) <==> IsByteValue(e[2]) && IsByteValue(e[3]);
    case Move(cell) =>
      assert AllBytes(e) <==> IsByteValue(e[2]);
  }

  /** What is written for a sendable message decodes to that message. */
  lemma {:induction false} EncodeDecode(m: Message)
    requires Sendable(m)
    ensures ToByteArray(Encode(m)).Some? && Decode(ToByteArray(Encode(m)).value) == Some(m)
  {
    Convertible(m);
    var bs := ToByteArray(Encode(m)).value;
    match m
    case Field(idx, at) =>
      SplitWord(at.x); SplitWord(at.y);
      assert Word(bs[3], bs[4]) == at.x && Word(bs[5], bs[6]) == at.y;
    case Piece(side, idx, at) =>
      SplitWord(at.x); SplitWord(at.y);
      assert Word(bs[4], bs[5]) == at.x && Word(bs[6], bs[7]) == at.y;
    case Winner(code) =>
    case Cheat(o, n) =>
    case Move(cell) =>
  }

  /** Every frame the decoder accepts is the encoding of what it decodes to:
      the frame format is unambiguous. */
  lemma {:induction false} DecodeEncode(bs: seq<byte>)
    requires Decode(bs).Some?
    ensures ToByteArray(Encode(Decode(bs).value)) == Some(bs)
  {
    var m := Decode(bs).value;
    var e := Encode(m);
    IntsBytes(bs);
    match m
    case Field(idx, at) =>
      JoinSplit(bs[3], bs[4]); JoinSplit(bs[5], bs[6]);
      assert bs[1] as int == 0x02;
      assert e == Ints(bs);
    case Piece(side, idx, at) =>
      JoinSplit(bs[4], bs[5]); JoinSplit(bs[6], bs[7]);
      assert bs[1] as int == 0x01;
      assert e == Ints(bs);
    case Winner(code) =>
      assert e == Ints(bs);
    case Cheat(o, n) =>
      assert e == Ints(bs);
    case Move(cell) =>
      assert e == Ints(bs);
  }

  // ---------------------------------------------------------------------
  // Writing a run of frames

  /** The writes of consecutive `ser.write(ByteArray(sent))` calls and how
      the run ends: frames go out in order until one holds a value outside
      0..255, where `bytearray` raises ValueError before that frame is
      written. */
  datatype Emission = Emission(log: seq<seq<byte>>, status: Status)

  /** The run of the first `n` frames. */
  function EmitUpTo(frames: seq<seq<int>>, n: nat): (r: Emission)
    requires n <= |frames|
    ensures r.status == Ok || r.status == Raised(ValueError)
    ensures |r.log| <= n && (r.status == Ok <==> |r.log| == n)
  {
    if n == 0 then Emission([], Ok)
    else
      var prev := EmitUpTo(frames, n - 1);
      if prev.status != Ok then prev
      else
        match ToByteArray(frames[n - 1])
        case None => Emission(prev.log, Raised(ValueError))
        case Some(bs) => Emission(prev.log + [bs], Ok)
  }

  function Emit(frames: seq<seq<int>>): Emission
  {
    EmitUpTo(frames, |frames|)
  }

  /** The run ends normally exactly when every frame converts; the written
      frames are the converted leading frames, and a ValueError comes from
      the first frame that does not convert. */
  lemma {:induction false} EmitUpToSpec(frames: seq<seq<int>>, n: nat)
    requires n <= |frames|
    ensures var r := EmitUpTo(frames, n);
      && (r.status == Ok <==> forall i :: 0 <= i < n ==> ToByteArray(frames[i]).Some?)
      && (r.status != Ok ==> ToByteArray(frames[|r.log|]).None?)
      && forall i :: 0 <= i < |r.log| ==> ToByteArray(frames[i]) == Some(r.log[i])
  {
    if n > 0 {
      EmitUpToSpec(frames, n - 1);
    }
  }

  lemma EmitSpec(frames: seq<seq<int>>)
    ensures var r := Emit(frames);
      && (r.status == Ok <==> forall i :: 0 <= i < |frames| ==> ToByteArray(frames[i]).Some?)
      && (r.status != Ok ==> ToByteArray(frames[|r.log|]).None?)
      && forall i :: 0 <= i < |r.log| ==> ToByteArray(frames[i]) == Some(r.log[i])
  {
    EmitUpToSpec(frames, |frames|);
  }

  /** Nothing is written after a ValueError. */
  lemma {:induction false} EmitStopped(frames: seq<seq<int>>, k: nat, n: nat)
    requires k <= n <= |frames| && EmitUpTo(frames, k).status != Ok
    ensures EmitUpTo(frames, n) == EmitUpTo(frames, k)
    decreases n
  {
    if n > k {
      EmitStopped(frames, k, n - 1);
    }
  }

  /** The first `k` frames of `a + b` run as the first `k` of `a`. */
  lemma {:induction false} EmitPrefix(a: seq<seq<int>>, b: seq<seq<int>>, k: nat)
    requires k <= |a|
    ensures EmitUpTo(a + b, k) == EmitUpTo(a, k)
  {
    if k > 0 {
      EmitPrefix(a, b, k - 1);
      assert (a + b)[k - 1] == a[k - 1];
    }
  }

  lemma {:induction false} EmitConcatUpTo(a: seq<seq<int>>, b: seq<seq<int>>, n: nat)
    requires n <= |b|
    ensures EmitUpTo(a + b, |a| + n) ==
      if Emit(a).status == Ok then Emission(Emit(a).log + EmitUpTo(b, n).log, EmitUpTo(b, n).status) else Emit(a)
  {
    if n == 0 {
      EmitPrefix(a, b, |a|);
    } else {
      EmitConcatUpTo(a, b, n - 1);
      assert (a + b)[|a| + n - 1] == b[n - 1];
    }
  }

  /** Running `a + b` is running `a` and then, if `a` ended normally, `b`. */
  lemma EmitConcat(a: seq<seq<int>>, b: seq<seq<int>>)
    ensures Emit(a + b) == if Emit(a).status == Ok then Emission(Emit(a).log + Emit(b).log, Emit(b).status) else Emit(a)
  {
    EmitConcatUpTo(a, b, |b|);
  }

  /** A run whose frames all convert writes each of them, in order. */
  lemma {:induction false} EmitAllOk(frames: seq<seq<int>>, n: nat)
    requires n <= |frames| && forall i :: 0 <= i < n ==> ToByteArray(frames[i]).Some?
    ensures EmitUpTo(frames, n) == Emission(seq(n, i requires 0 <= i < n => ToByteArray(frames[i]).value), Ok)
  {
    if n > 0 {
      EmitAllOk(frames, n - 1);
    }
  }

  /** Every frame a run of messages writes is delimited by 0xFF ... 0xFE. */
  lemma EmitDelimited(ms: seq<Message>)
    ensures var log := Emit(seq(|ms|, i requires 0 <= i < |ms| => Encode(ms[i]))).log;
      forall k :: 0 <= k < |log| ==> |log[k]| >= 4 && log[k][0] == Head as byte && log[k][|log[k]| - 1] == Tail as byte
  {
    var frames := seq(|ms|, i requires 0 <= i < |ms| => Encode(ms[i]));
    EmitSpec(frames);
  }

  function FieldFrames(vertices: seq<Point>): (fs: seq<seq<int>>)
    ensures |fs| == |vertices|
  {
    seq(|vertices|, i requires 0 <= i < |vertices| => Encode(Field(i, vertices[i])))
  }

  function PieceFrames(side: int, centres: seq<Point>): (fs: seq<seq<int>>)
    ensures |fs| == |centres|
  {
    seq(|centres|, i requires 0 <= i < |centres| => Encode(Piece(side, i, centres[i])))
  }

  /** The colour lists `find_pieces` reports; `None` stands for a falsy
      `pieces` argument. */
  datatype Pieces = Pieces(black: seq<Point>, white: seq<Point>)

  function PiecesFrames(p: Pieces): seq<seq<int>>
  {
    PieceFrames(Black, p.black) + PieceFrames(White, p.white)
  }

  /** With all coordinates in 0..65535, `send_field` writes the nine
      frames completely, and they decode to the nine vertices in order. */
  lemma FieldFramesDecode(vertices: seq<Point>)
    requires |vertices| == 9
    requires forall i :: 0 <= i < 9 ==> IsWord(vertices[i].x) && IsWord(vertices[i].y)
    ensures var e := Emit(FieldFrames(vertices));
      && e.status == Ok && |e.log| == 9
      && forall i :: 0 <= i < 9 ==> Decode(e.log[i]) == Some(Field(i, vertices[i]))
  {
    var fs := FieldFrames(vertices);
    EmitSpec(fs);
    forall i | 0 <= i < 9 ensures ToByteArray(fs[i]).Some? && Decode(ToByteArray(fs[i]).value) == Some(Field(i, vertices[i])) {
      EncodeDecode(Field(i, vertices[i]));
    }
  }

  /** `send_pieces` writes one frame per piece, black ones first with the
      index restarting at 0 for white, when all coordinates fit. */
  lemma PiecesFramesDecode(p: Pieces)
    requires |p.black| <= 256 && |p.white| <= 256
    requires forall c | c in p.black + p.white :: IsWord(c.x) && IsWord(c.y)
    ensures var e := Emit(PiecesFrames(p));
      && e.status == Ok && |e.log| == |p.black| + |p.white|
      && (forall i :: 0 <= i < |p.black| ==> Decode(e.log[i]) == Some(Piece(Black, i, p.black[i])))
      && (forall i :: 0 <= i < |p.white| ==> Decode(e.log[|p.black| + i]) == Some(Piece(White, i, p.white[i])))
  {
    var fs := PiecesFrames(p);
    var nb := |p.black|;
    EmitSpec(fs);
    forall i | 0 <= i < |fs|
      ensures ToByteArray(fs[i]).Some?
      ensures i < nb ==> Decode(ToByteArray(fs[i]).value) == Some(Piece(Black, i, p.black[i]))
      ensures nb <= i ==> Decode(ToByteArray(fs[i]).value) == Some(Piece(White, i - nb, p.white[i - nb]))
    {
      if i < nb {
        assert p.black[i] in p.black + p.white;
        EncodeDecode(Piece(Black, i, p.black[i]));
      } else {
        assert p.white[i - nb] in p.black + p.white;
        EncodeDecode(Piece(White, i - nb, p.white[i - nb]));
      }
    }
  }

  // ---------------------------------------------------------------------
  // The sending functions

  /** `send_field`: nothing without a port or unless there are exactly nine
      vertices; otherwise frame `idx` for each vertex in order. */
  method SendField(ser: Serial?, vertices: seq<Point>) returns (st: Status)
    modifies ser
    ensures ser != null ==> ser.incoming == old(ser.incoming)
    ensures ser == null || |vertices| != 9 ==> st == Ok && (ser != null ==> ser.written == old(ser.written))
    ensures ser != null && |vertices| == 9 ==>
      var e := Emit(FieldFrames(vertices));
      ser.written == old(ser.written) + e.log && st == e.status
  {
    if ser == null {
      return Ok;
    }
    if |vertices| != 9 {
      return Ok;
    }
    ghost var frames := FieldFrames(vertices);
    for idx := 0 to |vertices|
      invariant ser.incoming == old(ser.incoming)
      invariant EmitUpTo(frames, idx).status == Ok
      invariant ser.written == old(ser.written) + EmitUpTo(frames, idx).log
    {
      var vertex := vertices[idx];
      var sent := [Head, 0x02, idx, High(vertex.x), Low(vertex.x), High(vertex.y), Low(vertex.y), Tail];
      assert sent == frames[idx];
      var bytes := ToByteArray(sent);
      if bytes.None? {
        EmitStopped(frames, idx + 1, |frames|);
        return Raised(ValueError);
      }
      ser.Write(bytes.value);
    }
    st := Ok;
  }

  /** `send_pieces`: nothing without a port or for a falsy `pieces`;
      otherwise the black frames, then the white frames. */
  method SendPieces(ser: Serial?, pieces: Option<Pieces>) returns (st: Status)
    modifies ser
    ensures ser != null ==> ser.incoming == old(ser.incoming)
    ensures ser == null || pieces.None? ==> st == Ok && (ser != null ==> ser.written == old(ser.written))
    ensures ser != null && pieces.Some? ==>
      var e := Emit(PiecesFrames(pieces.value));
      ser.written == old(ser.written) + e.log && st == e.status
  {
    if ser == null {
      return Ok;
    }
    if pieces.None? {
      return Ok;
    }
    var black, white := pieces.value.black, pieces.value.white;
    st := SendColour(ser, Black, black);
    EmitConcat(PieceFrames(Black, black), PieceFrames(White, white));
    if st != Ok {
      return;
    }
    st := SendColour(ser, White, white);
  }

  /** One `for idx, c in enumerate(pieces[colour])` loop of `send_pieces`. */
  method SendColour(ser: Serial, side: int, centres: seq<Point>) returns (st: Status)
    modifies ser
    ensures ser.incoming == old(ser.incoming)
    ensures var e := Emit(PieceFrames(side, centres));
      ser.written == old(ser.written) + e.log && st == e.status
  {
    ghost var frames := PieceFrames(side, centres);
    for idx := 0 to |centres|
      invariant ser.incoming == old(ser.incoming)
      invariant EmitUpTo(frames, idx).status == Ok
      invariant ser.written == old(ser.written) + EmitUpTo(frames, idx).log
    {
      var c := centres[idx];
      var sent := [Head, 0x01, side, idx, High(c.x), Low(c.x), High(c.y), Low(c.y), Tail];
      assert sent == frames[idx];
      var bytes := ToByteArray(sent);
      if bytes.None? {
        EmitStopped(frames, idx + 1, |frames|);
        return Raised(ValueError);
      }
      ser.Write(bytes.value);
    }
    st := Ok;
  }

  /** The code byte of `notify_winner`: the `match` has no default arm, so
      an unknown name leaves the initial 0. */
  function WinnerCode(winner: string): (code: int)
    ensures 0 <= code <= 3
  {
    match winner
    case "unsure" => 0
    case "computer" => 1
    case "human" => 2
    case "draw" => 3
    case _ => 0
  }

  /** The names `notify_winner` knows, by code. */
  function WinnerName(code: int): string
    requires 0 <= code <= 3
  {
    ["unsure", "computer", "human", "draw"][code]
  }

  /** The four names map to four distinct codes, and every other string is
      reported like "unsure". */
  lemma WinnerCodes(winner: string)
    ensures forall c :: 0 <= c <= 3 ==> WinnerCode(WinnerName(c)) == c
    ensures (forall c :: 0 <= c <= 3 ==> winner != WinnerName(c)) ==> WinnerCode(winner) == 0
  {
    assert WinnerName(0) == "unsure" && WinnerName(1) == "computer";
    assert WinnerName(2) == "human" && WinnerName(3) == "draw";
  }

  /** `notify_winner`: one frame `[FF, 04, code, FE]`. */
  method NotifyWinner(ser: Serial?, winner: string)
    modifies ser
    ensures ser != null ==> ser.incoming == old(ser.incoming)
    ensures ser != null ==> ser.written == old(ser.written) + [ToByteArray(Encode(Winner(WinnerCode(winner)))).value]
  {
    if ser == null {
      return;
    }
    var sent := [Head, 0x04, 0, Tail];
    match winner {
      case "unsure" => sent := sent[2 := 0];
      case "computer" => sent := sent[2 := 1];
      case "human" => sent := sent[2 := 2];
      case "draw" => sent := sent[2 := 3];
      case _ =>
    }
    assert sent == Encode(Winner(WinnerCode(winner)));
    EncodeDecode(Winner(WinnerCode(winner)));
    var bytes := ToByteArray(sent);
    ser.Write(bytes.value);
  }

  /** `notify_cheat`: one frame `[FF, 05, old, new, FE]`; positions outside
      0..255 make `ByteArray` raise before anything is written. */
  method NotifyCheat(ser: Serial?, oldPos: int, newPos: int) returns (st: Status)
    modifies ser
    ensures ser != null ==> ser.incoming == old(ser.incoming)
    ensures ser == null ==> st == Ok
    ensures ser != null ==> ser.written == old(ser.written) + Emit([Encode(Cheat(oldPos, newPos))]).log
    ensures ser != null ==> st == Emit([Encode(Cheat(oldPos, newPos))]).status
  {
    if ser == null {
      return Ok;
    }
    var msg := ToByteArray([Head, 0x05, oldPos, newPos, Tail]);
    assert Emit([Encode(Cheat(oldPos, newPos))]).log == if msg.Some? then [msg.value] else [];
    if msg.None? {
      return Raised(ValueError);
    }
    ser.Write(msg.value);
    st := Ok;
  }

  // ---------------------------------------------------------------------
  // The printed form of a ByteArray

  function HexDigit(d: int): char
    requires 0 <= d < 16
  {
    "0123456789ABCDEF"[d]
  }

  /** `f'0x{byte:02X}'`. */
  function HexByte(b: byte): string
  {
    "0x" + [HexDigit(b as int / 16), HexDigit(b as int % 16)]
  }

  /** The value of one upper-case hex digit, the inverse of `HexDigit`. */
  function DigitValue(ch: char): int
  {
    if '0' <= ch <= '9' then ch as int - '0' as int
    else if 'A' <= ch <= 'F' then ch as int - 'A' as int + 10
    else -1
  }

  /** The items of `', '.join(...)` over the bytes. */
  function HexList(data: seq<byte>): string
  {
    if data == [] then ""
    else if |data| == 1 then HexByte(data[0])
    else HexByte(data[0]) + ", " + HexList(data[1..])
  }

  /** `ByteArray.__str__`. */
  function ByteArrayStr(data: seq<byte>): string
  {
    "[" + HexList(data) + "]"
  }

  /** Each byte prints as four characters from which it can be read back. */
  lemma HexByteRoundTrip(b: byte)
    ensures |HexByte(b)| == 4 && HexByte(b)[..2] == "0x"
    ensures DigitValue(HexByte(b)[2]) * 16 + DigitValue(HexByte(b)[3]) == b as int
  {
    var hi, lo := b as int / 16, b as int % 16;
    assert "0123456789ABCDEF"[hi] as int == if hi < 10 then '0' as int + hi else 'A' as int + hi - 10;
    assert "0123456789ABCDEF"[lo] as int == if lo < 10 then '0' as int + lo else 'A' as int + lo - 10;
  }

  /** The string form: the i-th byte occupies characters 1+6i .. 5+6i and
      consecutive bytes are separated by ", ", so a list of n >= 1 bytes
      prints in 6n characters. */
  lemma {:induction false} HexListLayout(data: seq<byte>)
    ensures |HexList(data)| == if data == [] then 0 else 6 * |data| - 2
    ensures forall i :: 0 <= i < |data| ==> HexList(data)[6 * i .. 6 * i + 4] == HexByte(data[i])
    ensures forall i :: 0 <= i < |data| - 1 ==> HexList(data)[6 * i + 4 .. 6 * i + 6] == ", "
  {
    if |data| > 1 {
      HexListLayout(data[1..]);
      var h, t := HexByte(data[0]) + ", ", HexList(data[1..]);
      assert |h| == 6;
      forall i | 1 <= i < |data| ensures HexList(data)[6 * i .. 6 * i + 4] == HexByte(data[i]) {
        assert HexList(data)[6 * i .. 6 * i + 4] == t[6 * (i - 1) .. 6 * (i - 1) + 4];
      }
      forall i | 1 <= i < |data| - 1 ensures HexList(data)[6 * i + 4 .. 6 * i + 6] == ", " {
        assert HexList(data)[6 * i + 4 .. 6 * i + 6] == t[6 * (i - 1) + 4 .. 6 * (i - 1) + 6];
      }
    }
  }

  /** Reading the bytes back out of `ByteArray.__str__`. */
  lemma ByteArrayStrRoundTrip(data: seq<byte>)
    ensures var s := ByteArrayStr(data);
      && |s| == (if data == [] then 2 else 6 * |data|)
      && s[0] == '[' && s[|s| - 1] == ']'
      && forall i :: 0 <= i < |data| ==>
           s[1 + 6 * i .. 3 + 6 * i] == "0x" && DigitValue(s[3 + 6 * i]) * 16 + DigitValue(s[4 + 6 * i]) == data[i] as int
  {
    HexListLayout(data);
    var s := ByteArrayStr(data);
    forall i | 0 <= i < |data|
      ensures s[1 + 6 * i .. 3 + 6 * i] == "0x" && DigitValue(s[3 + 6 * i]) * 16 + DigitValue(s[4 + 6 * i]) == data[i] as int
    {
      HexByteRoundTrip(data[i]);
      assert s[1 + 6 * i .. 5 + 6 * i] == HexList(data)[6 * i .. 6 * i + 4];
    }
  }
}
