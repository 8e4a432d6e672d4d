/**
 * `Out`: a byte sink with a fixed capacity. Every write either appends all
 * of its bytes or, if that would pass the capacity, fails and appends none.
 */
module Sink {
  import opened Wrappers
  import opened Bytes

  /** `Result<(), PrintError>` of one write. */
  datatype Status = Written | TotalLimitReached

  /** A write's status and the buffer after it. */
  datatype Step = Step(status: Status, buf: seq<Byte>)

  /** The error `write_line` turns a refused write into (`max_total_bytes reached`). */
  datatype Error = MaxTotalBytesReached

  /** `try_write` on a buffer `buf` of capacity `max`. */
  function Append(buf: seq<Byte>, max: nat, s: seq<Byte>): (r: Step)
    ensures |buf| <= max ==> |r.buf| <= max
    ensures r.buf == buf || r.buf == buf + s
    ensures r.status == Written <==> |buf| + |s| <= max || s == []
    ensures r.status == Written ==> r.buf == buf + s
    ensures r.status == TotalLimitReached ==> r.buf == buf
  {
    if s == [] then Step(Written, buf)
    else if |buf| + |s| > max then Step(TotalLimitReached, buf)
    else Step(Written, buf + s)
  }

  /**
   * `try_write_line`: the text, then a newline, each its own write. When
   * the newline is refused the text may already be in the buffer.
   */
  function AppendLine(buf: seq<Byte>, max: nat, s: seq<Byte>): (r: Step)
    ensures |buf| <= max ==> |r.buf| <= max
    ensures r.status == Written <==> |buf| + |s| + 1 <= max
    ensures r.status == Written ==> r.buf == buf + s + [NEWLINE]
    ensures r.status == TotalLimitReached ==> r.buf == buf || r.buf == buf + s
  {
    var t := Append(buf, max, s);
    if t.status == TotalLimitReached then t
    else Append(t.buf, max, [NEWLINE])
  }

  /** A line can be half written: the text fits, its newline does not. */
  lemma HalfWrittenLine(buf: seq<Byte>, max: nat, s: seq<Byte>)
    requires s != [] && |buf| + |s| == max
    ensures AppendLine(buf, max, s) == Step(TotalLimitReached, buf + s)
  {
  }

  class Out {
    /** The owned writer (a `Vec<u8>`). */
    var buf: seq<Byte>
    var written: nat
    const max: nat

    ghost predicate Valid()
      reads this
    {
      written == |buf| && written <= max
    }

    constructor (max: nat)
      ensures Valid() && buf == [] && this.max == max
    {
      buf := [];
      written := 0;
      this.max := max;
    }

    /** `remaining`: the capacity left; the saturating subtraction never saturates, since `written <= max`. */
    function Remaining(): (r: nat)
      reads this
      requires Valid()
      ensures r + |buf| == max
    {
      max - written
    }

    method TryWrite(s: seq<Byte>) returns (st: Status)
      requires Valid()
      modifies this
      ensures Valid()
      ensures Step(st, buf) == Append(old(buf), max, s)
    {
      if |s| == 0 {
        return Written;
      }
      var n := |s|;
      if written + n > max {
        return TotalLimitReached;
      }
      buf := buf + s;
      written := written + n;
      st := Written;
    }

    method TryWriteLine(s: seq<Byte>) returns (st: Status)
      requires Valid()
      modifies this
      ensures Valid()
      ensures Step(st, buf) == AppendLine(old(buf), max, s)
    {
      st := TryWrite(s);
      if st == TotalLimitReached {
        return;
      }
      st := TryWrite([NEWLINE]);
    }

    /** `write_line`: `try_write_line` with its refusal turned into an error. */
    method WriteLine(s: seq<Byte>) returns (r: Result<(), Error>)
      requires Valid()
      modifies this
      ensures Valid()
      ensures var w := AppendLine(old(buf), max, s);
        buf == w.buf && (r.Ok? <==> w.status == Written) && (r.Err? ==> r.error == MaxTotalBytesReached)
    {
      var st := TryWriteLine(s);
      if st == TotalLimitReached {
        return Err(MaxTotalBytesReached);
      }
      return Ok(());
    }

    /** `into_inner`: the bytes written, never more than the capacity. */
    method IntoInner() returns (w: seq<Byte>)
      requires Valid()
      ensures w == buf && |w| <= max
    {
      w := buf;
    }
  }
}
