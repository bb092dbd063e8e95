/** Shared vocabulary: bytes, optional values, pixel points, the Python
    exceptions the controller can raise, and the serial port reduced to an
    input buffer and an output log. */
module Base {

  /** One byte on the serial link. */
  newtype byte = b: int | 0 <= b < 256

  datatype Option<T> = None | Some(value: T)

  /** An integer pixel coordinate (x, y); (-1, -1) is the "not found" sentinel. */
  datatype Point = Point(x: int, y: int)

  /** The Python exceptions the modelled code raises. */
  datatype PyError = ValueError | IndexError | NameError | TypeError | UnboundLocalError | AttributeError

  /** How a call ended: normally, or by raising. */
  datatype Status = Ok | Raised(error: PyError)

  /** A value, or the exception raised instead of returning it. */
  datatype Result<T> = Success(value: T) | Failure(error: PyError)

  predicate IsByteValue(v: int) { 0 <= v < 256 }

  predicate AllBytes(xs: seq<int>) { forall i :: 0 <= i < |xs| ==> IsByteValue(xs[i]) }

  /** `bytearray(xs)`: every value must lie in 0..255, otherwise ValueError. */
  function ToByteArray(xs: seq<int>): (r: Option<seq<byte>>)
    ensures r.Some? <==> AllBytes(xs)
    ensures r.Some? ==> |r.value| == |xs| && forall i :: 0 <= i < |xs| ==> r.value[i] as int == xs[i]
  {
    if AllBytes(xs) then
      Some(seq(|xs|, i requires 0 <= i < |xs| && IsByteValue(xs[i]) => xs[i] as byte))
    else
      None
  }

  /** A serial handle: the bytes waiting to be read and the log of every
      `write` call, in order. */
  class Serial {
    var incoming: seq<byte>
    var written: seq<seq<byte>>

    constructor (waiting: seq<byte>)
      ensures incoming == waiting && written == []
    {
      incoming := waiting;
      written := [];
    }

    /** `in_waiting`: the number of bytes that can be read without blocking. */
    method InWaiting() returns (n: nat)
      ensures n == |incoming|
    {
      n := |incoming|;
    }

    /** `read(1)`, only ever called after `in_waiting` said a byte is there. */
    method Read() returns (b: byte)
      requires incoming != []
      modifies this
      ensures b == old(incoming)[0] && incoming == old(incoming)[1..]
      ensures written == old(written)
    {
      b := incoming[0];
      incoming := incoming[1..];
    }

    /** `read_all()`: every waiting byte. */
    method ReadAll() returns (bs: seq<byte>)
      modifies this
      ensures bs == old(incoming) && incoming == []
      ensures written == old(written)
    {
      bs := incoming;
      incoming := [];
    }

    /** `write(data)`. */
    method Write(data: seq<byte>)
      modifies this
      ensures written == old(written) + [data]
      ensures incoming == old(incoming)
    {
      written := written + [data];
    }
  }
}
