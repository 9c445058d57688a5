/**
 * The request parser's input side: a fixed-size buffer with `head` and `tail`
 * indices, refilled from the socket's InputStream. The stream is what the
 * socket has yet to deliver, as the successive non-empty chunks that
 * `read(buffer, 0, bufSize)` hands over: each call takes at most `bufSize`
 * bytes of the next chunk and leaves the rest of that chunk for the next call;
 * -1 means end of stream. The functions here give the state each parser
 * step leaves behind; the parser class runs them on its array.
 */
module HttpStream {
  import opened Wrappers
  import opened HttpRequests

  /** buffer, head, tail, and the chunks the stream has yet to deliver. */
  datatype Src = Src(buf: seq<byte>, head: int, tail: int, input: seq<seq<byte>>)

  predicate NonEmptyChunks(cs: seq<seq<byte>>) {
    forall k :: 0 <= k < |cs| ==> |cs[k]| > 0
  }

  /** The documented buffer invariant 0 <= head <= tail <= bufSize, for a
      buffer of at least one byte, fed by non-empty chunks. */
  predicate Valid(s: Src) {
    |s.buf| >= 1 && 0 <= s.head <= s.tail <= |s.buf| && NonEmptyChunks(s.input)
  }

  function Flatten(cs: seq<seq<byte>>): seq<byte> {
    if |cs| == 0 then [] else cs[0] + Flatten(cs[1..])
  }

  /** The bytes still to be read, in order: the unread part of the buffer, then the stream. */
  function Remaining(s: Src): seq<byte>
    requires 0 <= s.head <= s.tail <= |s.buf|
  {
    s.buf[s.head..s.tail] + Flatten(s.input)
  }

  /** A state the parser can go on reading from, with exactly `rest` unread. */
  predicate Leaves(e: Src, rest: seq<byte>) {
    Valid(e) && Remaining(e) == rest
  }

  function Min(a: int, b: int): int {
    if a < b then a else b
  }

  /** input.read(buffer, 0, bufSize): the count (-1 at end of stream, 0 for an
      empty buffer) and the state with the bytes copied to the buffer's front. */
  function ReadChunk(s: Src): (r: (int, Src))
    ensures |r.1.buf| == |s.buf| && r.1.head == s.head && r.1.tail == s.tail
    ensures r.0 == -1 <==> |s.input| == 0
    ensures r.0 <= |s.buf|
    ensures r.0 >= 1 ==> |Flatten(r.1.input)| + r.0 == |Flatten(s.input)|
    ensures r.0 == -1 ==> r.1 == s
    ensures NonEmptyChunks(s.input) && |s.input| > 0 && |s.buf| > 0 ==> r.0 >= 1 && NonEmptyChunks(r.1.input)
    ensures |s.input| > 0 && |s.buf| == 0 ==> r == (0, s)
  {
    if |s.input| == 0 then (-1, s)
    else if |s.buf| == 0 then (0, s)
    else
      var c := s.input[0];
      var n := Min(|s.buf|, |c|);
      var rest := if n == |c| then s.input[1..] else [c[n..]] + s.input[1..];
      FlattenSplit(s.input, n);
      (n, s.(buf := c[..n] + s.buf[n..], input := rest))
  }

  /** Taking n bytes of the first chunk takes the first n bytes of the stream. */
  lemma FlattenSplit(cs: seq<seq<byte>>, n: int)
    requires |cs| > 0 && 0 <= n <= |cs[0]|
    ensures n == |cs[0]| ==> Flatten(cs) == cs[0] + Flatten(cs[1..])
    ensures n < |cs[0]| ==> Flatten(cs) == cs[0][..n] + Flatten([cs[0][n..]] + cs[1..])
    ensures |Flatten(cs)| == n + |Flatten(if n == |cs[0]| then cs[1..] else [cs[0][n..]] + cs[1..])|
  {
    if n < |cs[0]| {
      var cs' := [cs[0][n..]] + cs[1..];
      assert cs'[1..] == cs[1..];
      assert cs[0] == cs[0][..n] + cs[0][n..];
    }
  }

  /** `buffer[head++]`: the byte at head, or ArrayIndexOutOfBoundsException; head advances either way. */
  function Fetch(s: Src): (r: (Result<byte>, Src))
    ensures r.1 == s.(head := s.head + 1)
    ensures r.0.Ok? <==> 0 <= s.head < |s.buf|
  {
    if 0 <= s.head < |s.buf| then (Ok(s.buf[s.head]), s.(head := s.head + 1))
    else (Err(RuntimeFailure(IndexOutOfBounds)), s.(head := s.head + 1))
  }

  /** A state the parser can keep reading from: head within the buffer and no
      empty chunk pending. Unlike Valid it allows head past tail, which a
      rewind after a refill can produce. */
  predicate Sane(s: Src) {
    0 <= s.head <= |s.buf| && s.tail <= |s.buf| && NonEmptyChunks(s.input)
  }

  /** Decreases with every byte read and never grows across a rewind. */
  function Measure(s: Src): int {
    |Flatten(s.input)| * (|s.buf| + 1) + (|s.buf| - s.head)
  }

  /** A readable state has a measure of at least zero. */
  lemma MeasureNonNegative(s: Src)
    requires Sane(s)
    ensures Measure(s) >= 0
  {
    var f := |Flatten(s.input)|;
    assert f * (|s.buf| + 1) >= 0;
  }

  /** readByte(): refill when head == tail (head reset to 0, tail the count
      read; -1 is "No more data is available"), then `buffer[head++]`. */
  function ReadByteF(s: Src): (r: (Result<byte>, Src))
    ensures |r.1.buf| == |s.buf|
    ensures |Flatten(r.1.input)| <= |Flatten(s.input)|
    ensures Sane(s) && r.0.Ok? ==> Sane(r.1)
    ensures r.0.Err? ==> r.0.error == IOFailure("No more data is available") || r.0.error == RuntimeFailure(IndexOutOfBounds)
  {
    if s.head == s.tail then
      var (n, s1) := ReadChunk(s);
      if n == -1 then (Err(IOFailure("No more data is available")), s1.(head := 0, tail := -1))
      else Fetch(s1.(head := 0, tail := n))
    else Fetch(s)
  }

  /** Every byte readByte delivers brings the measure down: a refill takes at
      least one byte off the stream, and costs at most a buffer's worth of head. */
  lemma ReadByteShrinks(s: Src)
    ensures Sane(s) && ReadByteF(s).0.Ok? ==> Measure(ReadByteF(s).1) < Measure(s)
  {
    if Sane(s) && ReadByteF(s).0.Ok? && s.head == s.tail {
      var (n, s1) := ReadChunk(s);
      assert |s.buf| > 0 && n >= 1;
      var f := |Flatten(s.input)|;
      assert |Flatten(s1.input)| == f - n;
      TakingScales(f, n, |s.buf| + 1);
    }
  }

  /** Taking n >= 1 bytes off the stream lowers the scaled stream length by at least one scale. */
  lemma TakingScales(f: int, n: int, b: int)
    requires 1 <= n && 1 <= b
    ensures (f - n) * b <= f * b - b
  {
    assert (f - n) * b == f * b - n * b;
    assert n * b >= b;
  }

  /** readBytes(count) from `acc` on: `count` more bytes read one at a time. */
  function ReadBytesAcc(s: Src, acc: seq<byte>, count: nat): (r: (Result<seq<byte>>, Src))
    ensures |r.1.buf| == |s.buf|
    ensures |Flatten(r.1.input)| <= |Flatten(s.input)|
    ensures r.0.Ok? ==> |r.0.value| == |acc| + count && r.0.value[..|acc|] == acc
    ensures Sane(s) && r.0.Ok? ==> Sane(r.1)
    ensures r.0.Err? ==> r.0.error == IOFailure("No more data is available") || r.0.error == RuntimeFailure(IndexOutOfBounds)
    decreases count
  {
    if count == 0 then (Ok(acc), s)
    else
      var (b, s1) := ReadByteF(s);
      if b.Err? then (Err(b.error), s1)
      else ReadBytesAcc(s1, acc + [b.value], count - 1)
  }

  /** readBytes(count). */
  function ReadBytesF(s: Src, count: nat): (Result<seq<byte>>, Src) {
    ReadBytesAcc(s, [], count)
  }

  /** A run of reads never raises the measure. */
  lemma {:induction false} ReadBytesShrinks(s: Src, acc: seq<byte>, count: nat)
    ensures var r := ReadBytesAcc(s, acc, count); Sane(s) && r.0.Ok? ==> Measure(r.1) <= Measure(s)
    decreases count
  {
    if count > 0 && ReadByteF(s).0.Ok? {
      ReadByteShrinks(s);
      ReadBytesShrinks(ReadByteF(s).1, acc + [ReadByteF(s).0.value], count - 1);
    }
  }

  // ------------------------------------------------ reading as a byte stream

  /** With nothing left in the stream, a successful read only moves head. */
  lemma {:induction false} ReadBytesNoRefill(s: Src, acc: seq<byte>, count: nat)
    requires s.input == []
    ensures var r := ReadBytesAcc(s, acc, count); r.0.Ok? ==> r.1 == s.(head := s.head + count)
    decreases count
  {
    if count > 0 && ReadByteF(s).0.Ok? {
      assert ReadByteF(s).1 == s.(head := s.head + 1);
      ReadBytesNoRefill(ReadByteF(s).1, acc + [ReadByteF(s).0.value], count - 1);
    }
  }

  /** A refill on a valid state with something left in the stream: between 1
      and bufSize bytes move from the stream to the buffer's front. */
  lemma ReadChunkMoves(s: Src) returns (n: int, s1: Src)
    requires Valid(s) && |s.input| > 0
    ensures ReadChunk(s) == (n, s1)
    ensures 1 <= n <= |s1.buf| == |s.buf| && NonEmptyChunks(s1.input)
    ensures s1.buf[..n] + Flatten(s1.input) == Flatten(s.input)
  {
    n, s1 := ReadChunk(s).0, ReadChunk(s).1;
    var c := s.input[0];
    FlattenSplit(s.input, n);
    assert s1.buf[..n] == c[..n];
  }

  /** readByte on a valid state whose buffer is used up but whose stream is not. */
  lemma ReadByteRefill(s: Src)
    requires Valid(s) && s.head == s.tail && |s.input| > 0
    ensures Remaining(s) != []
    ensures ReadByteF(s).0 == Ok(Remaining(s)[0]) && Valid(ReadByteF(s).1) &&
      Remaining(ReadByteF(s).1) == Remaining(s)[1..]
  {
    var n, s1 := ReadChunkMoves(s);
    var r := s1.buf[..n] + Flatten(s1.input);
    assert Remaining(s) == r;
    assert ReadByteF(s) == (Ok(s1.buf[0]), s1.(head := 1, tail := n));
    assert r[0] == s1.buf[0];
    assert r[1..] == s1.buf[1..n] + Flatten(s1.input);
  }

  /** On a valid state readByte returns the next byte of the stream and keeps
      the state valid, or reports the end of the stream when nothing is left. */
  lemma ReadByteStream(s: Src)
    requires Valid(s)
    ensures Remaining(s) == [] ==> ReadByteF(s).0 == Err(IOFailure("No more data is available"))
    ensures Remaining(s) != [] ==>
      ReadByteF(s).0 == Ok(Remaining(s)[0]) && Valid(ReadByteF(s).1) &&
      Remaining(ReadByteF(s).1) == Remaining(s)[1..]
  {
    if s.head == s.tail {
      if |s.input| > 0 {
        ReadByteRefill(s);
      } else {
        assert Remaining(s) == [];
      }
    } else {
      assert Remaining(s)[0] == s.buf[s.head];
      assert Remaining(s)[1..] == s.buf[s.head + 1..s.tail] + Flatten(s.input);
    }
  }

  /** Moving one byte from the front of the unread bytes to the end of what was read. */
  lemma SeqShift(acc: seq<byte>, b: byte, r: seq<byte>, r1: seq<byte>, count: int)
    requires r == [b] + r1 && 0 < count <= |r|
    ensures acc + [b] + r1[..count - 1] == acc + r[..count] && r1[count - 1..] == r[count..]
  {
    assert r[..count] == [b] + r1[..count - 1];
  }

  /** The same for a run of reads: `count` bytes of the stream, or the end of the stream. */
  lemma {:induction false} ReadBytesStream(s: Src, acc: seq<byte>, count: nat)
    requires Valid(s)
    ensures count <= |Remaining(s)| ==>
      ReadBytesAcc(s, acc, count).0 == Ok(acc + Remaining(s)[..count]) &&
      Valid(ReadBytesAcc(s, acc, count).1) &&
      Remaining(ReadBytesAcc(s, acc, count).1) == Remaining(s)[count..]
    ensures count > |Remaining(s)| ==> ReadBytesAcc(s, acc, count).0 == Err(IOFailure("No more data is available"))
    decreases count
  {
    if count > 0 {
      ReadByteStream(s);
      if Remaining(s) != [] {
        var s1 := ReadByteF(s).1;
        var b := Remaining(s)[0];
        ReadBytesStream(s1, acc + [b], count - 1);
        if count <= |Remaining(s)| {
          SeqShift(acc, b, Remaining(s), Remaining(s1), count);
        }
      }
    } else {
      assert acc + Remaining(s)[..0] == acc && Remaining(s)[0..] == Remaining(s);
    }
  }
}
