/**
 * readMultiPartValue and isMultiPartRequestDone: the streaming scan for the
 * delimiter CR LF "--" boundary (section 5.1.1 of RFC 2046) that ends a part's
 * body, and the two bytes after it ("--" closes the body, CR LF opens the
 * next part).
 *
 * The scan matches the four-byte prefix CR LF "--" byte by byte, writing out
 * the bytes of a partial match that breaks; a CR always starts a new match.
 * After a full prefix it reads boundary-length bytes and compares them; on a
 * mismatch it writes the prefix out and sets head back to where it stood
 * after the prefix. That rewind is sound only while the compare did not
 * refill the buffer.
 */
module HttpMultipart {
  import opened Wrappers
  import opened JavaText
  import opened HttpRequests
  import opened HttpStream
  import opened HttpHeaders

  const BoundaryPrefix: seq<byte> := [CR, LF, DASH, DASH]

  /** The failures a part's body can end in: an I/O or runtime failure, or
      "Invalid multipart request"; never one of process()'s own parse errors. */
  predicate PartFailure(e: Failure) {
    e.HttpParseFailure? ==> e.msg == "Invalid multipart request"
  }

  function TooLarge(max: int): string {
    "File size exceeds maximum allowed size of " + IntToDecimal(max) + " bytes"
  }

  /** isMultiPartRequestDone(): "--" is the end, CR LF another part, anything else a parse error. */
  function DoneF(s: Src): (r: (Result<bool>, Src))
    ensures |r.1.buf| == |s.buf|
    ensures Sane(s) && r.0.Ok? ==> Sane(r.1) && Measure(r.1) < Measure(s)
    ensures r.0.Err? ==> PartFailure(r.0.error)
  {
    var (b0, s1) := ReadByteF(s);
    if b0.Err? then (Err(b0.error), s1)
    else
      var (b1, s2) := ReadByteF(s1);
      ReadByteShrinks(s);
      ReadByteShrinks(s1);
      if b1.Err? then (Err(b1.error), s2)
      else if b0.value == DASH && b1.value == DASH then (Ok(true), s2)
      else if b0.value != CR || b1.value != LF then (Err(HttpParseFailure("Invalid multipart request")), s2)
      else (Ok(false), s2)
  }

  /** Where the prefix matcher goes on byte c from index i, and what it writes to the value. */
  function ScanStep(i: nat, c: byte, value: seq<byte>): (r: (nat, seq<byte>))
    requires i < 4
    ensures r.0 <= 4 && r.1 + BoundaryPrefix[..r.0] == value + BoundaryPrefix[..i] + [c]
  {
    if c == CR then (1, value + BoundaryPrefix[..i])
    else if c == BoundaryPrefix[i] then (i + 1, value)
    else (0, value + BoundaryPrefix[..i] + [c])
  }

  /** The readMultiPartValue loop: the value with the end flag, or the failure. */
  function ValueLoop(s: Src, i: nat, size: int, value: seq<byte>, boundary: seq<byte>, max: int)
    : (r: (Result<(seq<byte>, bool)>, Src))
    requires i < 4
    ensures |r.1.buf| == |s.buf|
    ensures r.0.Err? ==> PartFailure(r.0.error)
    decreases max - size
  {
    var (b, s1) := ReadByteF(s);
    if b.Err? then (Err(b.error), s1)
    else if size + 1 > max then (Err(IOFailure(TooLarge(max))), s1)
    else
      var (i', value') := ScanStep(i, b.value, value);
      if i' < 4 then ValueLoop(s1, i', size + 1, value', boundary, max)
      else
        var (bs, s2) := ReadBytesF(s1, |boundary|);
        if bs.Err? then (Err(bs.error), s2)
        else if bs.value == boundary then Finish(value', DoneF(s2))
        else ValueLoop(s2.(head := s1.head), 0, size + 1, value' + BoundaryPrefix, boundary, max)
  }

  /** The value with the end flag isMultiPartRequestDone gives, or its failure. */
  function Finish(v: seq<byte>, d: (Result<bool>, Src)): (Result<(seq<byte>, bool)>, Src) {
    if d.0.Err? then (Err(d.0.error), d.1) else (Ok((v, d.0.value)), d.1)
  }

  /** readMultiPartValue(). */
  function ReadValueF(s: Src, boundary: seq<byte>, max: int): (r: (Result<(seq<byte>, bool)>, Src))
    ensures r.0.Err? ==> PartFailure(r.0.error)
  {
    ValueLoop(s, 0, 0, [], boundary, max)
  }

  // ----------------------------------------------------------- properties

  /** The next byte, when it is read within the cap. */
  function NextByte(s: Src): byte
    requires ReadByteF(s).0.Ok?
  {
    ReadByteF(s).0.value
  }

  /** A turn of the scan that leaves the prefix incomplete. */
  lemma ValueStepPartial(s: Src, i: nat, size: int, value: seq<byte>, boundary: seq<byte>, max: int)
    requires i < 4 && ReadByteF(s).0.Ok? && size + 1 <= max && ScanStep(i, NextByte(s), value).0 < 4
    ensures var (i', value') := ScanStep(i, NextByte(s), value);
      ValueLoop(s, i, size, value, boundary, max) == ValueLoop(ReadByteF(s).1, i', size + 1, value', boundary, max)
  {
  }

  /** The same turn, with the byte read and the state after it named. */
  lemma PartialStep(s: Src, s1: Src, x: byte, i: nat, size: int, value: seq<byte>, boundary: seq<byte>, max: int)
    requires i < 4 && ReadByteF(s) == (Ok(x), s1) && size + 1 <= max && ScanStep(i, x, value).0 < 4
    ensures ValueLoop(s, i, size, value, boundary, max) ==
      ValueLoop(s1, ScanStep(i, x, value).0, size + 1, ScanStep(i, x, value).1, boundary, max)
  {
    ValueStepPartial(s, i, size, value, boundary, max);
  }

  /** A turn that completes the prefix but whose compare bytes are not the
      boundary, with the states after the byte and after the compare named. */
  lemma FullStep(s: Src, s1: Src, x: byte, s2: Src, bs: seq<byte>, i: nat, size: int, value: seq<byte>,
                 boundary: seq<byte>, max: int)
    requires i < 4 && ReadByteF(s) == (Ok(x), s1) && size + 1 <= max && ScanStep(i, x, value).0 == 4
    requires ReadBytesF(s1, |boundary|) == (Ok(bs), s2) && bs != boundary
    ensures ValueLoop(s, i, size, value, boundary, max) ==
      ValueLoop(s2.(head := s1.head), 0, size + 1, ScanStep(i, x, value).1 + BoundaryPrefix, boundary, max)
  {
    ValueStepFull(s, i, size, value, boundary, max);
  }

  /** A turn of the scan that completes the prefix, with the compare bytes read. */
  lemma ValueStepFull(s: Src, i: nat, size: int, value: seq<byte>, boundary: seq<byte>, max: int)
    requires i < 4 && ReadByteF(s).0.Ok? && size + 1 <= max && ScanStep(i, NextByte(s), value).0 == 4
    requires ReadBytesF(ReadByteF(s).1, |boundary|).0.Ok?
    ensures var s1, value' := ReadByteF(s).1, ScanStep(i, NextByte(s), value).1;
      var (bs, s2) := ReadBytesF(s1, |boundary|);
      ValueLoop(s, i, size, value, boundary, max) ==
        if bs.value == boundary then Finish(value', DoneF(s2))
        else ValueLoop(s2.(head := s1.head), 0, size + 1, value' + BoundaryPrefix, boundary, max)
  {
  }

  /** Rewinding head to where it stood before a run of reads gives back no more than those reads took. */
  lemma MeasureRewind(s1: Src, s2: Src)
    requires Sane(s1) && Sane(s2) && |s2.buf| == |s1.buf| && |Flatten(s2.input)| <= |Flatten(s1.input)|
    ensures Sane(s2.(head := s1.head)) && Measure(s2.(head := s1.head)) <= Measure(s1)
  {
    var b := |s1.buf| + 1;
    assert |Flatten(s2.input)| * b <= |Flatten(s1.input)| * b;
  }

  /** A successful scan leaves a state the parser can keep reading from, and
      strictly lowers the measure: every turn reads a byte, and a rewind
      gives back no more than the compare took. */
  lemma {:induction false} ValueLoopShrinks(s: Src, i: nat, size: int, value: seq<byte>, boundary: seq<byte>, max: int)
    requires i < 4
    ensures var r := ValueLoop(s, i, size, value, boundary, max);
      Sane(s) && r.0.Ok? ==> Sane(r.1) && Measure(r.1) < Measure(s)
    decreases max - size
  {
    var r := ValueLoop(s, i, size, value, boundary, max);
    if Sane(s) && r.0.Ok? {
      var s1 := ReadByteF(s).1;
      ReadByteShrinks(s);
      var (i', value') := ScanStep(i, NextByte(s), value);
      if i' < 4 {
        ValueStepPartial(s, i, size, value, boundary, max);
        ValueLoopShrinks(s1, i', size + 1, value', boundary, max);
      } else {
        ValueStepFull(s, i, size, value, boundary, max);
        var (bs, s2) := ReadBytesF(s1, |boundary|);
        ReadBytesShrinks(s1, [], |boundary|);
        if bs.value != boundary {
          MeasureRewind(s1, s2);
          ValueLoopShrinks(s2.(head := s1.head), 0, size + 1, value' + BoundaryPrefix, boundary, max);
        }
      }
    }
  }

  /** The outcome once the delimiter has matched, given the bytes `tl` after it. */
  predicate Closes(r: (Result<(seq<byte>, bool)>, Src), v: seq<byte>, tl: seq<byte>) {
    if |tl| < 2 then r.0 == Err(IOFailure("No more data is available"))
    else if tl[0] == DASH && tl[1] == DASH then r.0 == Ok((v, true)) && Valid(r.1) && Remaining(r.1) == tl[2..]
    else if tl[0] != CR || tl[1] != LF then r.0 == Err(HttpParseFailure("Invalid multipart request"))
    else r.0 == Ok((v, false)) && Valid(r.1) && Remaining(r.1) == tl[2..]
  }

  /** isMultiPartRequestDone on a valid state, in terms of the next two bytes of the stream. */
  lemma DoneOnStream(s: Src, v: seq<byte>)
    requires Valid(s)
    ensures Closes(Finish(v, DoneF(s)), v, Remaining(s))
  {
    var tl := Remaining(s);
    ReadByteStream(s);
    if tl != [] {
      var s1 := ReadByteF(s).1;
      ReadByteStream(s1);
      if |tl| >= 2 {
        assert Remaining(s1) == tl[1..];
        assert Remaining(s1)[1..] == tl[2..];
      }
    }
  }

  predicate NoPrefixBefore(w: seq<byte>, n: int)
    requires n + 4 <= |w|
  {
    forall q :: 0 <= q < n ==> !OccursAt(w, BoundaryPrefix, q)
  }

  predicate NoDelimiterBefore(w: seq<byte>, p: seq<byte>, n: int)
    requires n + |p| <= |w|
  {
    forall q :: 0 <= q < n ==> !OccursAt(w, p, q)
  }

  /** The state the scan keeps while it works through w = B + delimiter + tl:
      the value plus the pending partial match is everything read so far, and
      a partial match never reaches past B unless it is the delimiter's own. */
  predicate ScanInv(w: seq<byte>, nb: int, pos: int, i: nat, value: seq<byte>) {
    0 <= pos <= |w| && i < 4 && i <= pos && value + BoundaryPrefix[..i] == w[..pos] &&
    (pos <= nb || (pos - i == nb && i >= 1))
  }

  /** The scan at byte `pos` of w, with the stream holding the rest of w. */
  predicate Scanning(s: Src, size: int, w: seq<byte>, nb: int, pos: int, i: nat, value: seq<byte>) {
    ScanInv(w, nb, pos, i, value) && Valid(s) && Remaining(s) == w[pos..] && size == pos
  }

  /** One matched or unmatched byte keeps ScanInv, and a completed prefix sits
      either inside B or exactly at the delimiter. */
  lemma ScanStepKeeps(w: seq<byte>, nb: int, pos: int, i: nat, value: seq<byte>)
    requires 0 <= nb && nb + 4 <= |w| && w[nb..nb + 4] == BoundaryPrefix
    requires ScanInv(w, nb, pos, i, value) && pos < nb + 4
    ensures var (i', value') := ScanStep(i, w[pos], value);
      (i' < 4 ==> ScanInv(w, nb, pos + 1, i', value')) &&
      (i' == 4 ==> value' + BoundaryPrefix == w[..pos + 1] && pos + 1 - 4 <= nb)
  {
    var (i', value') := ScanStep(i, w[pos], value);
    assert w[..pos + 1] == w[..pos] + [w[pos]];
    if pos > nb {
      assert w[pos] == BoundaryPrefix[pos - nb];
    }
  }

  /** With the stream at position pos of w = B + BoundaryPrefix + boundary + tl,
      the scan ends right after the delimiter with exactly B as the value,
      when no earlier delimiter occurs and each false prefix compare happens
      without a refill. `e` is the state right after the delimiter. */
  lemma {:induction false} ValueLoopOnStream(s: Src, i: nat, size: int, value: seq<byte>,
                                             boundary: seq<byte>, max: int,
                                             w: seq<byte>, b: seq<byte>, tl: seq<byte>, pos: int)
    returns (e: Src)
    requires w == b + BoundaryPrefix + boundary + tl
    requires NoDelimiterBefore(w, BoundaryPrefix + boundary, |b|)
    requires s.input == [] || NoPrefixBefore(w, |b|)
    requires |b| + 4 <= max
    requires Scanning(s, size, w, |b|, pos, i, value)
    ensures Leaves(e, tl)
    ensures ValueLoop(s, i, size, value, boundary, max) == Finish(b, DoneF(e))
    decreases max - size, 2
  {
    if ScanStep(i, w[pos], value).0 < 4 {
      e := PartialOnStream(s, i, size, value, boundary, max, w, b, tl, pos);
    } else {
      e := PrefixCompleteOnStream(s, i, size, value, boundary, max, w, b, tl, pos);
    }
  }

  /** Reading the byte at `pos` of a stream whose remaining bytes are w[pos..]. */
  lemma ReadOneOnStream(s: Src, w: seq<byte>, pos: int) returns (s1: Src)
    requires Valid(s) && 0 <= pos < |w| && Remaining(s) == w[pos..]
    ensures s1 == ReadByteF(s).1 && ReadByteF(s).0 == Ok(w[pos])
    ensures Valid(s1) && Remaining(s1) == w[pos + 1..]
    ensures s1.input == [] || s.input != []
  {
    ReadByteStream(s);
    s1 := ReadByteF(s).1;
    assert Remaining(s)[0] == w[pos];
  }

  /** A turn that leaves the prefix incomplete keeps ScanInv one byte further on. */
  lemma {:induction false} PartialOnStream(s: Src, i: nat, size: int, value: seq<byte>,
                                           boundary: seq<byte>, max: int,
                                           w: seq<byte>, b: seq<byte>, tl: seq<byte>, pos: int)
    returns (e: Src)
    requires w == b + BoundaryPrefix + boundary + tl
    requires NoDelimiterBefore(w, BoundaryPrefix + boundary, |b|)
    requires s.input == [] || NoPrefixBefore(w, |b|)
    requires |b| + 4 <= max
    requires Scanning(s, size, w, |b|, pos, i, value)
    requires ScanStep(i, w[pos], value).0 < 4
    ensures Leaves(e, tl)
    ensures ValueLoop(s, i, size, value, boundary, max) == Finish(b, DoneF(e))
    decreases max - size, 0
  {
    assert w[|b|..|b| + 4] == BoundaryPrefix;
    var s1 := ReadOneOnStream(s, w, pos);
    ScanStepKeeps(w, |b|, pos, i, value);
    var (i', value') := ScanStep(i, w[pos], value);
    PartialStep(s, s1, w[pos], i, size, value, boundary, max);
    e := ValueLoopOnStream(s1, i', size + 1, value', boundary, max, w, b, tl, pos + 1);
  }

  /** The turn that completes a prefix: at the delimiter, or inside B. */
  lemma {:induction false} PrefixCompleteOnStream(s: Src, i: nat, size: int, value: seq<byte>,
      boundary: seq<byte>, max: int, w: seq<byte>, b: seq<byte>, tl: seq<byte>, pos: int)
    returns (e: Src)
    requires w == b + BoundaryPrefix + boundary + tl
    requires NoDelimiterBefore(w, BoundaryPrefix + boundary, |b|)
    requires s.input == [] || NoPrefixBefore(w, |b|)
    requires |b| + 4 <= max
    requires Scanning(s, size, w, |b|, pos, i, value)
    requires ScanStep(i, w[pos], value).0 == 4
    ensures Leaves(e, tl)
    ensures ValueLoop(s, i, size, value, boundary, max) == Finish(b, DoneF(e))
    decreases max - size, 1
  {
    ScanStepKeeps(w, |b|, pos, i, value);
    if pos + 1 - 4 == |b| {
      e := DelimiterOnStream(s, i, size, value, boundary, max, w, b, tl, pos);
    } else {
      e := FalsePrefixOnStream(s, i, size, value, boundary, max, w, b, tl, pos);
    }
  }

  /** The prefix completes at the delimiter: the boundary compares equal and the value is B. */
  lemma DelimiterOnStream(s: Src, i: nat, size: int, value: seq<byte>,
      boundary: seq<byte>, max: int, w: seq<byte>, b: seq<byte>, tl: seq<byte>, pos: int)
    returns (e: Src)
    requires w == b + BoundaryPrefix + boundary + tl
    requires NoDelimiterBefore(w, BoundaryPrefix + boundary, |b|)
    requires s.input == [] || NoPrefixBefore(w, |b|)
    requires |b| + 4 <= max
    requires Scanning(s, size, w, |b|, pos, i, value)
    requires ScanStep(i, w[pos], value).0 == 4
    requires pos + 1 - 4 == |b|
    ensures Leaves(e, tl)
    ensures ValueLoop(s, i, size, value, boundary, max) == Finish(b, DoneF(e))
  {
    assert w[|b|..|b| + 4] == BoundaryPrefix;
    var s1 := ReadOneOnStream(s, w, pos);
    ScanStepKeeps(w, |b|, pos, i, value);
    var value' := ScanStep(i, w[pos], value).1;
    var q := pos + 1 - 4;
    assert w[q..pos + 1] == BoundaryPrefix by {
      assert w[..pos + 1][q..] == BoundaryPrefix;
    }
    ReadBytesStream(s1, [], |boundary|);
    ValueStepFull(s, i, size, value, boundary, max);
    e := ReadBytesF(s1, |boundary|).1;
    assert Remaining(s1)[..|boundary|] == boundary;
    assert value' == b by {
      assert value' + BoundaryPrefix == w[..|b| + 4];
      assert w[..|b| + 4][..|b|] == b;
    }
  }

  /** The prefix completes inside B: the compare fails, nothing was refilled,
      and the scan resumes right after the prefix with the prefix written out. */
  lemma {:induction false} FalsePrefixOnStream(s: Src, i: nat, size: int, value: seq<byte>,
      boundary: seq<byte>, max: int, w: seq<byte>, b: seq<byte>, tl: seq<byte>, pos: int)
    returns (e: Src)
    requires w == b + BoundaryPrefix + boundary + tl
    requires NoDelimiterBefore(w, BoundaryPrefix + boundary, |b|)
    requires s.input == [] || NoPrefixBefore(w, |b|)
    requires |b| + 4 <= max
    requires Scanning(s, size, w, |b|, pos, i, value)
    requires ScanStep(i, w[pos], value).0 == 4
    requires pos + 1 - 4 != |b|
    ensures Leaves(e, tl)
    ensures ValueLoop(s, i, size, value, boundary, max) == Finish(b, DoneF(e))
    decreases max - size, 0
  {
    assert w[|b|..|b| + 4] == BoundaryPrefix;
    var s1 := ReadOneOnStream(s, w, pos);
    ScanStepKeeps(w, |b|, pos, i, value);
    var value' := ScanStep(i, w[pos], value).1;
    var q := pos + 1 - 4;
    assert w[q..pos + 1] == BoundaryPrefix by {
      assert w[..pos + 1][q..] == BoundaryPrefix;
    }
    assert !NoPrefixBefore(w, |b|) by {
      assert OccursAt(w, BoundaryPrefix, q);
    }
    assert !OccursAt(w, BoundaryPrefix + boundary, q);
    assert s1 == s.(head := s.head + 1);
    FalsePrefixSkipped(s1, boundary, w, q);
    ValueStepFull(s, i, size, value, boundary, max);
    e := ValueLoopOnStream(s1, 0, size + 1, value' + BoundaryPrefix, boundary, max, w, b, tl, pos + 1);
  }

  /** A prefix that is not followed by the boundary: the compare reads the
      next boundary-length bytes, finds them different, and with nothing
      left in the stream the rewind puts head back where it was. */
  lemma FalsePrefixSkipped(s1: Src, boundary: seq<byte>, w: seq<byte>, q: int)
    requires Valid(s1) && s1.input == [] && 0 <= q && q + 4 + |boundary| <= |w|
    requires Remaining(s1) == w[q + 4..] && w[q..q + 4] == BoundaryPrefix
    requires !OccursAt(w, BoundaryPrefix + boundary, q)
    ensures var (bs, s2) := ReadBytesF(s1, |boundary|);
      bs.Ok? && bs.value != boundary && s2.(head := s1.head) == s1
  {
    ReadBytesStream(s1, [], |boundary|);
    ReadBytesNoRefill(s1, [], |boundary|);
    assert w[q..q + 4 + |boundary|] == BoundaryPrefix + w[q + 4..q + 4 + |boundary|];
    assert Remaining(s1)[..|boundary|] == w[q + 4..q + 4 + |boundary|];
  }

  /** Round trip: a body B followed by CR LF "--" boundary comes back
      byte-for-byte, followed by the end flag the next two bytes give, as long
      as B holds no delimiter, fits under maxPostSize with the prefix, and
      either the stream is already all in the buffer or B holds no CR LF "--". */
  lemma ValueRoundTrip(s: Src, boundary: seq<byte>, max: int, b: seq<byte>, tl: seq<byte>)
    requires Valid(s) && Remaining(s) == b + BoundaryPrefix + boundary + tl
    requires NoDelimiterBefore(Remaining(s), BoundaryPrefix + boundary, |b|)
    requires s.input == [] || NoPrefixBefore(Remaining(s), |b|)
    requires |b| + 4 <= max
    ensures Closes(ReadValueF(s, boundary, max), b, tl)
  {
    var w := Remaining(s);
    assert w[0..] == w;
    var e := ValueLoopOnStream(s, 0, 0, [], boundary, max, w, b, tl, 0);
    DoneOnStream(e, b);
  }

  /** maxPostSize bounds what a successful scan returns: the value and the
      delimiter prefix after it were all counted against the limit. */
  lemma {:induction false} ValueLoopWithinMax(s: Src, i: nat, size: int, value: seq<byte>, boundary: seq<byte>, max: int)
    requires i < 4 && |value| + i <= size
    ensures var r := ValueLoop(s, i, size, value, boundary, max);
      r.0.Ok? ==> |r.0.value.0| + 4 <= max
    decreases max - size
  {
    var r := ValueLoop(s, i, size, value, boundary, max);
    if r.0.Ok? {
      var s1 := ReadByteF(s).1;
      var (i', value') := ScanStep(i, NextByte(s), value);
      assert |value'| + i' == |value| + i + 1;
      if i' < 4 {
        ValueStepPartial(s, i, size, value, boundary, max);
        ValueLoopWithinMax(s1, i', size + 1, value', boundary, max);
      } else {
        ValueStepFull(s, i, size, value, boundary, max);
        var (bs, s2) := ReadBytesF(s1, |boundary|);
        if bs.value != boundary {
          ValueLoopWithinMax(s2.(head := s1.head), 0, size + 1, value' + BoundaryPrefix, boundary, max);
        }
      }
    }
  }

  /** A value readMultiPartValue returns is at most maxPostSize - 4 bytes long. */
  lemma ReadValueWithinMax(s: Src, boundary: seq<byte>, max: int)
    ensures ReadValueF(s, boundary, max).0.Ok? ==> |ReadValueF(s, boundary, max).0.value.0| + 4 <= max
  {
    ValueLoopWithinMax(s, 0, 0, [], boundary, max);
  }

  /** The scan at byte `pos` of w, before any delimiter and under the limit:
      every byte read so far has been counted once, a rewind included. */
  predicate Counting(s: Src, size: int, w: seq<byte>, pos: int, i: nat, value: seq<byte>, max: int) {
    Valid(s) && 0 <= pos < |w| && Remaining(s) == w[pos..] && size == pos && (pos == 0 || pos <= max) &&
    i < 4 && i <= pos && value + BoundaryPrefix[..i] == w[..pos]
  }

  /** With no delimiter among the first maxPostSize bytes, the scan reaches
      byte maxPostSize + 1 and fails with the size error. */
  lemma {:induction false} ValueLoopTooLarge(s: Src, i: nat, size: int, value: seq<byte>,
                                             boundary: seq<byte>, max: int, w: seq<byte>, pos: int)
    requires max + 1 + |boundary| <= |w|
    requires NoDelimiterBefore(w, BoundaryPrefix + boundary, max - 3)
    requires s.input == [] || NoPrefixBefore(w, max - 3)
    requires Counting(s, size, w, pos, i, value, max)
    ensures ValueLoop(s, i, size, value, boundary, max).0 == Err(IOFailure(TooLarge(max)))
    decreases max - size
  {
    var s1 := ReadOneOnStream(s, w, pos);
    if pos + 1 <= max {
      var (i', value') := ScanStep(i, w[pos], value);
      assert w[..pos + 1] == w[..pos] + [w[pos]];
      if i' < 4 {
        PartialStep(s, s1, w[pos], i, size, value, boundary, max);
        ValueLoopTooLarge(s1, i', size + 1, value', boundary, max, w, pos + 1);
      } else {
        var q := pos + 1 - 4;
        assert w[q..pos + 1] == BoundaryPrefix by {
          assert w[..pos + 1][q..] == BoundaryPrefix;
        }
        assert !NoPrefixBefore(w, max - 3) by {
          assert OccursAt(w, BoundaryPrefix, q);
        }
        assert !OccursAt(w, BoundaryPrefix + boundary, q);
        FalsePrefixSkipped(s1, boundary, w, q);
        ValueStepFull(s, i, size, value, boundary, max);
        ValueLoopTooLarge(s1, 0, size + 1, value' + BoundaryPrefix, boundary, max, w, pos + 1);
      }
    }
  }

  /** maxPostSize: a body with no delimiter among its first maxPostSize bytes
      (and enough bytes after them for a compare) fails with "File size
      exceeds maximum allowed size", when the stream is already in the
      buffer or those bytes hold no CR LF "--". */
  lemma ValueTooLarge(s: Src, boundary: seq<byte>, max: int)
    requires Valid(s) && 0 < |Remaining(s)| && max + 1 + |boundary| <= |Remaining(s)|
    requires NoDelimiterBefore(Remaining(s), BoundaryPrefix + boundary, max - 3)
    requires s.input == [] || NoPrefixBefore(Remaining(s), max - 3)
    ensures ReadValueF(s, boundary, max).0 == Err(IOFailure(TooLarge(max)))
  {
    var w := Remaining(s);
    assert w[0..] == w;
    ValueLoopTooLarge(s, 0, 0, [], boundary, max, w, 0);
  }

  /** The rewind after a refill: a four-byte buffer that the delimiter prefix
      CR LF "--" fills exactly, followed in the stream by two bytes that are
      not the two-byte boundary. The compare refills the buffer (tail 2), the
      rewind puts head back to 4, and the next `buffer[head++]` is out of
      bounds, although a well-formed body could go on after those bytes. */
  lemma {:induction false} RewindAfterRefillFails(x: byte, y: byte, boundary: seq<byte>, max: int)
    requires |boundary| == 2 && [x, y] != boundary && max >= 5
    ensures ReadValueF(Src([0, 0, 0, 0], 0, 0, [BoundaryPrefix, [x, y]]), boundary, max).0
      == Err(RuntimeFailure(IndexOutOfBounds))
  {
    var s0 := Src([0, 0, 0, 0], 0, 0, [BoundaryPrefix, [x, y]]);
    var full := Src(BoundaryPrefix, 0, 4, [[x, y]]);
    assert BoundaryPrefix[..4] + s0.buf[4..] == BoundaryPrefix;
    assert ReadChunk(s0) == (4, s0.(buf := BoundaryPrefix, input := [[x, y]]));
    var s1 := full.(head := 1);
    var s2 := full.(head := 2);
    var s3 := full.(head := 3);
    var s4 := full.(head := 4);
    assert ReadByteF(s0) == (Ok(CR), s1);
    PartialStep(s0, s1, CR, 0, 0, [], boundary, max);
    assert ReadByteF(s1) == (Ok(LF), s2);
    PartialStep(s1, s2, LF, 1, 1, [], boundary, max);
    assert ReadByteF(s2) == (Ok(DASH), s3);
    PartialStep(s2, s3, DASH, 2, 2, [], boundary, max);
    assert ReadByteF(s3) == (Ok(DASH), s4);
    var refilled := Src([x, y, DASH, DASH], 0, 2, []);
    assert [x, y][..2] + BoundaryPrefix[2..] == [x, y, DASH, DASH];
    assert [[x, y]][1..] == [];
    assert ReadChunk(s4) == (2, s4.(buf := [x, y, DASH, DASH], input := []));
    assert ReadByteF(s4) == (Ok(x), refilled.(head := 1));
    assert ReadByteF(refilled.(head := 1)) == (Ok(y), refilled.(head := 2));
    assert ReadBytesAcc(refilled.(head := 2), [x, y], 0) == (Ok([x, y]), refilled.(head := 2));
    assert [x] + [y] == [x, y];
    assert ReadBytesAcc(refilled.(head := 1), [x], 1) == (Ok([x, y]), refilled.(head := 2));
    assert [] + [x] == [x];
    assert ReadBytesAcc(s4, [], 2) == ReadBytesAcc(refilled.(head := 1), [x], 1);
    assert ReadBytesF(s4, 2) == (Ok([x, y]), refilled.(head := 2));
    FullStep(s3, s4, DASH, refilled.(head := 2), [x, y], 3, 3, [], boundary, max);
    var back := refilled.(head := 4);
    assert ReadByteF(back) == (Err(RuntimeFailure(IndexOutOfBounds)), back.(head := 5));
  }
}
