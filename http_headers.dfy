/**
 * readHeaders: reads bytes until the four-byte matcher for CR LF CR LF
 * completes, capped by headerPartMaxSize, and returns every byte read as
 * text. The match index goes one further on a match and back to 0 on any
 * mismatch, so a CR that breaks a partial match is not itself taken as the
 * start of a new match.
 */
module HttpHeaders {
  import opened Wrappers
  import opened JavaText
  import opened HttpRequests
  import opened HttpStream

  const CR: byte := 13
  const LF: byte := 10
  const DASH: byte := 45
  const HeaderSeparator: seq<byte> := [CR, LF, CR, LF]

  /** Bytes as text, one character per byte (ISO-8859-1). */
  function Latin1(bs: seq<byte>): (r: string)
    ensures |r| == |bs|
    ensures forall k :: 0 <= k < |bs| ==> r[k] as int == bs[k]
  {
    seq(|bs|, k requires 0 <= k < |bs| => bs[k] as char)
  }

  /** The match index after one more byte. */
  function NextIndex(i: nat, b: byte): nat
    requires i < 4
  {
    if b == HeaderSeparator[i] then i + 1 else 0
  }

  /** How many bytes of `data` the matcher consumes, from index i, until the
      index reaches 4; -1 when it never does within `data`. */
  function EndAt(i: nat, data: seq<byte>): (n: int)
    requires i <= 4
    ensures n == -1 || 0 <= n <= |data|
    ensures i == 4 <==> n == 0
    decreases |data|
  {
    if i == 4 then 0
    else if |data| == 0 then -1
    else
      var m := EndAt(NextIndex(i, data[0]), data[1..]);
      if m == -1 then -1 else m + 1
  }

  function HeaderTooLong(max: int): string {
    "Header section has more than " + IntToDecimal(max) + " bytes (maybe it is not properly terminated)"
  }

  /** The readHeaders loop from match index i, `size` bytes counted and `acc` collected. */
  function HeadersLoop(s: Src, i: nat, size: int, acc: seq<byte>, max: int): (r: (Result<seq<byte>>, Src))
    requires i <= 4
    ensures |r.1.buf| == |s.buf|
    ensures Sane(s) && r.0.Ok? ==> Sane(r.1)
    ensures Sane(s) && r.0.Ok? && i < 4 ==> Measure(r.1) < Measure(s)
    ensures r.0.Err? ==> r.0.error.IOFailure? || r.0.error == RuntimeFailure(IndexOutOfBounds)
    decreases max - size
  {
    if i == 4 then (Ok(acc), s)
    else
      var (b, s1) := ReadByteF(s);
      if b.Err? then
        (Err(if b.error.IOFailure? then IOFailure("Stream ended unexpectedly") else b.error), s1)
      else if size + 1 > max then (Err(IOFailure(HeaderTooLong(max))), s1)
      else
        ReadByteShrinks(s);
        HeadersLoop(s1, NextIndex(i, b.value), size + 1, acc + [b.value], max)
  }

  /** readHeaders(): the header block's bytes as text. */
  function ReadHeadersF(s: Src, max: int): (r: (Result<string>, Src))
    ensures |r.1.buf| == |s.buf|
    ensures r.0.Err? ==> r.0.error.IOFailure? || r.0.error == RuntimeFailure(IndexOutOfBounds)
    ensures Sane(s) && r.0.Ok? ==> Sane(r.1) && Measure(r.1) < Measure(s)
  {
    var (r, s') := HeadersLoop(s, 0, 0, [], max);
    if r.Err? then (Err(r.error), s') else (Ok(Latin1(r.value)), s')
  }

  // ----------------------------------------------------------- properties

  /** One turn of the loop after a byte has been read within the cap. */
  lemma HeadersStep(s: Src, i: nat, size: int, acc: seq<byte>, max: int)
    requires i < 4 && ReadByteF(s).0.Ok? && size + 1 <= max
    ensures var b := ReadByteF(s).0.value;
      HeadersLoop(s, i, size, acc, max) == HeadersLoop(ReadByteF(s).1, NextIndex(i, b), size + 1, acc + [b], max)
  {
  }

  predicate EndsWith(s: seq<byte>, p: seq<byte>) {
    |p| <= |s| && s[|s| - |p|..] == p
  }

  /** What the loop returns ends with the separator, starts with what it had
      collected, and holds no more than the cap allows. */
  lemma {:induction false} HeadersLoopResult(s: Src, i: nat, size: int, acc: seq<byte>, max: int)
    requires i <= 4 && EndsWith(acc, HeaderSeparator[..i]) && size <= max
    ensures var r := HeadersLoop(s, i, size, acc, max).0;
      r.Ok? ==> |acc| <= |r.value| <= |acc| + max - size && r.value[..|acc|] == acc &&
                EndsWith(r.value, HeaderSeparator)
    decreases max - size
  {
    if i < 4 && ReadByteF(s).0.Ok? && size + 1 <= max {
        var b, s1 := ReadByteF(s).0.value, ReadByteF(s).1;
        var i' := NextIndex(i, b);
        var acc' := acc + [b];
        if i' > 0 {
          assert acc'[|acc'| - i'..] == acc[|acc| - i..] + [b];
        }
        HeadersStep(s, i, size, acc, max);
        HeadersLoopResult(s1, i', size + 1, acc', max);
        var v := HeadersLoop(s1, i', size + 1, acc', max).0;
        if v.Ok? {
          assert v.value[..|acc|] == v.value[..|acc'|][..|acc|];
        }
    }
  }

  /** readHeaders returns a block ending in CR LF CR LF of at most headerPartMaxSize bytes. */
  lemma ReadHeadersEndsWithSeparator(s: Src, max: int)
    requires 0 <= max
    ensures var r := HeadersLoop(s, 0, 0, [], max).0;
      r.Ok? ==> EndsWith(r.value, HeaderSeparator) && |r.value| <= max
  {
    HeadersLoopResult(s, 0, 0, [], max);
  }

  /** On a valid state, a matcher that completes within the cap: the loop
      consumes exactly the bytes the matcher needs and leaves the rest unread. */
  lemma {:induction false} HeadersLoopCompletes(s: Src, i: nat, size: int, acc: seq<byte>, max: int)
    requires Valid(s) && i < 4
    requires EndAt(i, Remaining(s)) != -1 && size + EndAt(i, Remaining(s)) <= max
    ensures var data, e, r := Remaining(s), EndAt(i, Remaining(s)), HeadersLoop(s, i, size, acc, max);
      r.0 == Ok(acc + data[..e]) && Valid(r.1) && Remaining(r.1) == data[e..]
    decreases max - size
  {
    var data := Remaining(s);
    ReadByteStream(s);
    var s1 := ReadByteF(s).1;
    var i' := NextIndex(i, data[0]);
    HeadersStep(s, i, size, acc, max);
    if i' < 4 {
      HeadersLoopCompletes(s1, i', size + 1, acc + [data[0]], max);
      SeqShift(acc, data[0], data, data[1..], EndAt(i', data[1..]) + 1);
    } else {
      assert acc + [data[0]] == acc + data[..1];
    }
  }

  /** On a valid state, a matcher that does not complete within the cap: the
      size error once the count passes the cap, and "Stream ended unexpectedly"
      when the stream runs out first. */
  lemma {:induction false} HeadersLoopFails(s: Src, i: nat, size: int, acc: seq<byte>, max: int)
    requires Valid(s) && i < 4 && size <= max
    requires EndAt(i, Remaining(s)) == -1 || size + EndAt(i, Remaining(s)) > max
    ensures var data, e, r := Remaining(s), EndAt(i, Remaining(s)), HeadersLoop(s, i, size, acc, max);
      (e != -1 ==> r.0 == Err(IOFailure(HeaderTooLong(max)))) &&
      (e == -1 && size + |data| > max ==> r.0 == Err(IOFailure(HeaderTooLong(max)))) &&
      (e == -1 && size + |data| <= max ==> r.0 == Err(IOFailure("Stream ended unexpectedly")))
    decreases max - size
  {
    var data := Remaining(s);
    ReadByteStream(s);
    if data != [] && size + 1 <= max {
      var s1 := ReadByteF(s).1;
      HeadersStep(s, i, size, acc, max);
      HeadersLoopFails(s1, NextIndex(i, data[0]), size + 1, acc + [data[0]], max);
    }
  }

  /** Both together: the loop consumes exactly the bytes the matcher needs,
      fails with "Stream ended unexpectedly" when the stream runs out first,
      and with the size error once the count passes the cap. */
  lemma HeadersLoopOnStream(s: Src, i: nat, size: int, acc: seq<byte>, max: int)
    requires Valid(s) && i < 4 && size <= max
    ensures var data, e, r := Remaining(s), EndAt(i, Remaining(s)), HeadersLoop(s, i, size, acc, max);
      (e != -1 && size + e <= max ==>
        r.0 == Ok(acc + data[..e]) && Valid(r.1) && Remaining(r.1) == data[e..]) &&
      (e != -1 && size + e > max ==> r.0 == Err(IOFailure(HeaderTooLong(max)))) &&
      (e == -1 && size + |data| > max ==> r.0 == Err(IOFailure(HeaderTooLong(max)))) &&
      (e == -1 && size + |data| <= max ==> r.0 == Err(IOFailure("Stream ended unexpectedly")))
  {
    var e := EndAt(i, Remaining(s));
    if e != -1 && size + e <= max {
      HeadersLoopCompletes(s, i, size, acc, max);
    } else {
      HeadersLoopFails(s, i, size, acc, max);
    }
  }

  /** From the start: a stream whose matcher completes after e <= max bytes
      yields exactly those e bytes and leaves the rest unread. */
  lemma ReadHeadersOnStream(s: Src, max: int)
    requires Valid(s) && 0 <= max
    ensures var data, e, r := Remaining(s), EndAt(0, Remaining(s)), ReadHeadersF(s, max);
      (e != -1 && e <= max ==>
        r.0 == Ok(Latin1(data[..e])) && Valid(r.1) && Remaining(r.1) == data[e..]) &&
      (e != -1 && e > max ==> r.0 == Err(IOFailure(HeaderTooLong(max)))) &&
      (e == -1 && |data| > max ==> r.0 == Err(IOFailure(HeaderTooLong(max)))) &&
      (e == -1 && |data| <= max ==> r.0 == Err(IOFailure("Stream ended unexpectedly")))
  {
    HeadersLoopOnStream(s, 0, 0, [], max);
    var e := EndAt(0, Remaining(s));
    if e != -1 {
      assert [] + Remaining(s)[..e] == Remaining(s)[..e];
    }
  }

  /** The index resets to 0, not 1, on a mismatching CR: in CR CR LF CR LF CR LF
      the separator at offset 1 is passed over and the block ends at 7, not 5. */
  lemma MismatchResetsToZero()
    ensures EndAt(0, [CR, CR, LF, CR, LF, CR, LF]) == 7
    ensures [CR, CR, LF, CR, LF, CR, LF][1..5] == HeaderSeparator
  {
    var d := [CR, CR, LF, CR, LF, CR, LF];
    assert EndAt(3, d[6..]) == 1 by { assert d[6..][1..] == []; }
    assert EndAt(2, d[5..]) == 2 by { assert d[5..][1..] == d[6..]; }
    assert EndAt(1, d[4..]) == 3 by { assert d[4..][1..] == d[5..]; }
    assert EndAt(0, d[3..]) == 4 by { assert d[3..][1..] == d[4..]; }
    assert EndAt(0, d[2..]) == 5 by { assert d[2..][1..] == d[3..]; }
    assert EndAt(1, d[1..]) == 6 by { assert d[1..][1..] == d[2..]; }
  }
}
