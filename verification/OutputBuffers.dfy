/** The two buffers that bound what is kept of a benchmark's output: the tail in
    features/stress/manager.go, the head in features/stress/runnerapi/server_linux.go. */
module OutputBuffers {
  import opened ByteStrings

  const MAX_TAIL_BYTES: nat := 16 * 1024
  const MAX_HEAD_BYTES: nat := 16 * 1024 * 1024

  /** The stream that a series of writes makes up. */
  function Stream(writes: seq<seq<Byte>>): seq<Byte> {
    if writes == [] then [] else Stream(writes[..|writes| - 1]) + writes[|writes| - 1]
  }

  function Tail(s: seq<Byte>, n: nat): seq<Byte> {
    if |s| <= n then s else s[|s| - n..]
  }

  function Head(s: seq<Byte>, n: nat): seq<Byte> {
    if |s| <= n then s else s[..n]
  }

  predicate IsEnd(end: seq<Byte>, s: seq<Byte>) {
    |end| <= |s| && s[|s| - |end|..] == end
  }

  lemma StreamOneMore(writes: seq<seq<Byte>>, p: seq<Byte>)
    ensures Stream(writes + [p]) == Stream(writes) + p
  {
    assert (writes + [p])[..|writes|] == writes;
  }

  /** Some write alone is as long as the buffer. */
  predicate HasLongWrite(writes: seq<seq<Byte>>, n: nat) {
    exists i :: 0 <= i < |writes| && |writes[i]| >= n
  }

  lemma LongWriteOneMore(writes: seq<seq<Byte>>, p: seq<Byte>, n: nat)
    ensures HasLongWrite(writes + [p], n) <==> HasLongWrite(writes, n) || |p| >= n
  {
    var all := writes + [p];
    if HasLongWrite(writes, n) {
      var i :| 0 <= i < |writes| && |writes[i]| >= n;
      assert all[i] == writes[i];
    }
    if |p| >= n {
      assert all[|writes|] == p;
    }
  }

  lemma {:induction false} LongWriteFillsStream(writes: seq<seq<Byte>>, n: nat)
    requires HasLongWrite(writes, n)
    ensures |Stream(writes)| >= n
  {
    var before, last := writes[..|writes| - 1], writes[|writes| - 1];
    assert writes == before + [last];
    LongWriteOneMore(before, last, n);
    if HasLongWrite(before, n) {
      LongWriteFillsStream(before, n);
    }
  }

  /** What is truncated: something was dropped, or one write filled the buffer exactly. */
  predicate Truncated(writes: seq<seq<Byte>>, n: nat) {
    |Stream(writes)| > n || HasLongWrite(writes, n)
  }

  /** The mark says "bytes were dropped" truly, except that the stream is exactly as long as the
      buffer and came in one write (beside empty ones). */
  lemma {:induction false} MarkIsTrueExactly(writes: seq<seq<Byte>>, n: nat)
    ensures (Truncated(writes, n) <==> |Stream(writes)| > n) <==>
            !(|Stream(writes)| == n && HasLongWrite(writes, n))
  {
    if HasLongWrite(writes, n) {
      LongWriteFillsStream(writes, n);
    }
  }

  /** One write of exactly the buffer's length: marked, though nothing is dropped. */
  lemma ExactWriteIsMarked(p: seq<Byte>)
    requires |p| == MAX_TAIL_BYTES
    ensures Truncated([p], MAX_TAIL_BYTES)
    ensures Stream([p]) == p == Tail(Stream([p]), MAX_TAIL_BYTES)
  {
    assert [p][..0] == [];
    assert [p][0] == p;
  }

  /** `boundedOutput`. */
  class BoundedOutput {
    var data: seq<Byte>
    var truncated: bool
    ghost var writes: seq<seq<Byte>>

    /** However the stream was cut into writes, the buffer holds its last bytes. */
    ghost predicate Valid()
      reads this
    {
      data == Tail(Stream(writes), MAX_TAIL_BYTES) && (truncated <==> Truncated(writes, MAX_TAIL_BYTES))
    }

    constructor ()
      ensures Valid() && writes == []
    {
      data, truncated, writes := [], false, [];
    }

    method Write(p: seq<Byte>) returns (written: nat)
      requires Valid()
      modifies this
      ensures Valid() && writes == old(writes) + [p] && written == |p|
      ensures IsEnd(data, Stream(writes)) && |data| == if |Stream(writes)| < 16384 then |Stream(writes)| else 16384
    {
      StreamOneMore(writes, p);
      LongWriteOneMore(writes, p, MAX_TAIL_BYTES);
      ghost var stream := Stream(writes);
      written := |p|;
      writes := writes + [p];
      if |p| >= MAX_TAIL_BYTES {
        data := p[|p| - MAX_TAIL_BYTES..];
        truncated := true;
        return;
      }
      var overflow := |data| + |p| - MAX_TAIL_BYTES;
      if overflow > 0 {
        data := data[overflow..];
        truncated := true;
      }
      data := data + p;
      assert data == Tail(stream + p, MAX_TAIL_BYTES);
    }

    /** A buffer not marked truncated holds the whole stream. */
    lemma UnmarkedIsWhole()
      requires Valid() && !truncated
      ensures data == Stream(writes)
    {
    }
  }

  /** `limitedBuffer`. */
  class LimitedBuffer {
    var buffer: seq<Byte>
    var exceeded: bool
    ghost var writes: seq<seq<Byte>>

    /** However the stream was cut into writes, the buffer holds its first bytes, and the mark is
        set exactly when there were more. */
    ghost predicate Valid()
      reads this
    {
      buffer == Head(Stream(writes), MAX_HEAD_BYTES) && (exceeded <==> |Stream(writes)| > MAX_HEAD_BYTES)
    }

    constructor ()
      ensures Valid() && writes == []
    {
      buffer, exceeded, writes := [], false, [];
    }

    method Write(p: seq<Byte>) returns (written: nat)
      requires Valid()
      modifies this
      ensures Valid() && writes == old(writes) + [p] && written == |p|
      ensures buffer <= Stream(writes) && |buffer| == if |Stream(writes)| < 16777216 then |Stream(writes)| else 16777216
    {
      StreamOneMore(writes, p);
      writes := writes + [p];
      var available := MAX_HEAD_BYTES - |buffer|;
      if available > 0 {
        var write := |p|;
        if write > available {
          write := available;
        }
        buffer := buffer + p[..write];
      }
      if |p| > available {
        exceeded := true;
      }
      return |p|;
    }
  }
}
