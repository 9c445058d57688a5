/**
 * StringUtil: joining, concatenation, XML escaping, CSV quoting and
 * case-insensitive containment. Each StringBuilder loop of the source is a
 * method proved against a specification function; the lemmas give every
 * function a partner (an independent definition or an inverse).
 */
module StringUtil {
  import opened Wrappers
  import opened JavaText

  // ------------------------------------------------------- specifications

  /** p0 + sep + p1 + ... + pn, and "" for no pieces. */
  function JoinSpec(sep: string, pieces: seq<string>): string {
    if |pieces| == 0 then ""
    else if |pieces| == 1 then pieces[0]
    else JoinSpec(sep, pieces[..|pieces| - 1]) + sep + pieces[|pieces| - 1]
  }

  /** The in-order concatenation of all pieces. */
  function ConcatSpec(pieces: seq<string>): string {
    if |pieces| == 0 then "" else pieces[0] + ConcatSpec(pieces[1..])
  }

  function TotalLength(pieces: seq<string>): nat {
    if |pieces| == 0 then 0 else |pieces[0]| + TotalLength(pieces[1..])
  }

  /** Each piece with `sep` in front of it. */
  function Prefixed(sep: string, pieces: seq<string>): (r: seq<string>)
    ensures |r| == |pieces|
    ensures forall k :: 0 <= k < |pieces| ==> r[k] == sep + pieces[k]
  {
    seq(|pieces|, k requires 0 <= k < |pieces| => sep + pieces[k])
  }

  function Decimals(ns: seq<int>): (r: seq<string>)
    ensures |r| == |ns|
    ensures forall k :: 0 <= k < |ns| ==> r[k] == IntToDecimal(ns[k])
  {
    seq(|ns|, k requires 0 <= k < |ns| => IntToDecimal(ns[k]))
  }

  // ------------------------------------------------------------- join

  /** join(String sep, List<String> pieces), walking the list with an iterator. */
  method Join(sep: string, pieces: seq<string>) returns (r: string)
    ensures r == JoinSpec(sep, pieces)
  {
    if |pieces| == 0 { return ""; }
    if |pieces| == 1 { return pieces[0]; }
    var buf := pieces[0];
    var rest := pieces[1..];
    while rest != []
      invariant |rest| < |pieces|
      invariant rest == pieces[|pieces| - |rest|..]
      invariant buf == JoinSpec(sep, pieces[..|pieces| - |rest|])
      decreases |rest|
    {
      var i := |pieces| - |rest|;
      assert pieces[..i + 1][..i] == pieces[..i];
      buf := buf + sep + rest[0];
      rest := rest[1..];
    }
    assert pieces[..|pieces|] == pieces;
    return buf;
  }

  /** join(String sep, String[] pieces), walking the array by index. */
  method JoinArray(sep: string, pieces: array<string>) returns (r: string)
    ensures r == JoinSpec(sep, pieces[..])
  {
    if pieces.Length == 0 { return ""; }
    if pieces.Length == 1 { return pieces[0]; }
    var buf := pieces[0];
    for i := 1 to pieces.Length
      invariant buf == JoinSpec(sep, pieces[..i])
    {
      assert pieces[..i + 1][..i] == pieces[..i];
      buf := buf + sep + pieces[i];
    }
    assert pieces[..pieces.Length] == pieces[..];
    return buf;
  }

  /** joinv(String sep, String... pieces): the varargs array goes to the array form. */
  method Joinv(sep: string, pieces: array<string>) returns (r: string)
    ensures r == JoinSpec(sep, pieces[..])
  {
    r := JoinArray(sep, pieces);
  }

  /** joinIntegerList: every Integer rendered by String.valueOf, then joined. */
  method JoinIntegerList(sep: string, pieces: seq<int>) returns (r: string)
    ensures r == JoinSpec(sep, Decimals(pieces))
  {
    var newList: seq<string> := [];
    for k := 0 to |pieces|
      invariant newList == Decimals(pieces[..k])
    {
      newList := newList + [IntToDecimal(pieces[k])];
    }
    assert pieces[..|pieces|] == pieces;
    r := Join(sep, newList);
  }

  // ----------------------------------------------------------- concat

  /** concat(String[] pieces). */
  method Concat(pieces: array<string>) returns (r: string)
    ensures r == ConcatSpec(pieces[..])
  {
    if pieces.Length == 0 { return ""; }
    if pieces.Length == 1 { return pieces[0]; }
    var buf := "";
    for i := 0 to pieces.Length
      invariant buf + ConcatSpec(pieces[i..]) == ConcatSpec(pieces[..])
    {
      assert pieces[i..][1..] == pieces[i + 1..];
      buf := buf + pieces[i];
    }
    return buf;
  }

  /** concatv(String... pieces). */
  method Concatv(pieces: array<string>) returns (r: string)
    ensures r == ConcatSpec(pieces[..])
  {
    r := Concat(pieces);
  }

  // -------------------------------------------------- join/concat lemmas

  lemma {:induction false} ConcatAppend(a: seq<string>, b: seq<string>)
    ensures ConcatSpec(a + b) == ConcatSpec(a) + ConcatSpec(b)
  {
    if a == [] {
      assert a + b == b;
    } else {
      assert (a + b)[0] == a[0];
      assert (a + b)[1..] == a[1..] + b;
      ConcatAppend(a[1..], b);
    }
  }

  /** The right-to-left definition of join agrees with the left-to-right form
      p0 + (sep + p1) + ... + (sep + pn). */
  lemma {:induction false} JoinIsHeadThenPrefixedTail(sep: string, pieces: seq<string>)
    requires |pieces| >= 1
    ensures JoinSpec(sep, pieces) == pieces[0] + ConcatSpec(Prefixed(sep, pieces[1..]))
  {
    var n := |pieces|;
    if n == 1 {
      assert Prefixed(sep, pieces[1..]) == [];
    } else {
      var init := pieces[..n - 1];
      JoinIsHeadThenPrefixedTail(sep, init);
      assert init[1..] == pieces[1..n - 1];
      assert Prefixed(sep, pieces[1..]) == Prefixed(sep, init[1..]) + [sep + pieces[n - 1]];
      ConcatAppend(Prefixed(sep, init[1..]), [sep + pieces[n - 1]]);
      assert ConcatSpec([sep + pieces[n - 1]]) == sep + pieces[n - 1];
    }
  }

  /** concat is join with the empty separator. */
  lemma {:induction false} ConcatIsJoinWithEmptySeparator(pieces: seq<string>)
    ensures ConcatSpec(pieces) == JoinSpec("", pieces)
  {
    if |pieces| >= 1 {
      JoinIsHeadThenPrefixedTail("", pieces);
      var tail := pieces[1..];
      assert forall k :: 0 <= k < |tail| ==> Prefixed("", tail)[k] == tail[k];
      assert Prefixed("", tail) == tail;
    }
  }

  /** Joining two non-empty lists puts exactly one separator between their joins. */
  lemma {:induction false} JoinAppend(sep: string, a: seq<string>, b: seq<string>)
    requires |a| >= 1 && |b| >= 1
    ensures JoinSpec(sep, a + b) == JoinSpec(sep, a) + sep + JoinSpec(sep, b)
  {
    if |b| == 1 {
      assert (a + b)[..|a + b| - 1] == a;
    } else {
      var b' := b[..|b| - 1];
      assert (a + b)[..|a + b| - 1] == a + b';
      JoinAppend(sep, a, b');
    }
  }

  lemma {:induction false} TotalLengthAppend(a: seq<string>, b: seq<string>)
    ensures TotalLength(a + b) == TotalLength(a) + TotalLength(b)
  {
    if a == [] {
      assert a + b == b;
    } else {
      assert (a + b)[0] == a[0];
      assert (a + b)[1..] == a[1..] + b;
      TotalLengthAppend(a[1..], b);
    }
  }

  /** The joined text holds every character of every piece plus n - 1 separators. */
  lemma {:induction false} JoinLength(sep: string, pieces: seq<string>)
    requires |pieces| >= 1
    ensures |JoinSpec(sep, pieces)| == TotalLength(pieces) + (|pieces| - 1) * |sep|
  {
    var n := |pieces|;
    if n == 1 {
      assert pieces[1..] == [];
    } else {
      var init := pieces[..n - 1];
      JoinLength(sep, init);
      assert pieces == init + [pieces[n - 1]];
      TotalLengthAppend(init, [pieces[n - 1]]);
      assert TotalLength([pieces[n - 1]]) == |pieces[n - 1]|;
      var m := (n - 2) * |sep|;
      assert (n - 1) * |sep| == m + |sep|;
      assert |JoinSpec(sep, pieces)| == |JoinSpec(sep, init)| + |sep| + |pieces[n - 1]|;
    }
  }

  // ----------------------------------------------------------- escape

  /** The replacement text of one character. */
  function EscapeChar(c: char): string {
    match c
    case '&' => "&amp;"
    case '<' => "&lt;"
    case '>' => "&gt;"
    case '"' => "&quot;"
    case _ => [c]
  }

  function EscapeSpec(s: string): string {
    if |s| == 0 then "" else EscapeSpec(s[..|s| - 1]) + EscapeChar(s[|s| - 1])
  }

  /** escape(String): null or empty gives "", otherwise every character replaced in order. */
  method Escape(str: Option<string>) returns (r: string)
    ensures r == if str.None? then "" else EscapeSpec(str.value)
  {
    if str.None? || |str.value| == 0 { return ""; }
    var s := str.value;
    var sb := "";
    for i := 0 to |s|
      invariant sb == EscapeSpec(s[..i])
    {
      assert s[..i + 1][..i] == s[..i];
      sb := sb + EscapeChar(s[i]);
    }
    assert s[..|s|] == s;
    return sb;
  }

  /** Replaces each entity produced by escape with its character. */
  function Unescape(t: string): string {
    if |t| == 0 then ""
    else if StartsWith(t, "&amp;") then "&" + Unescape(t[5..])
    else if StartsWith(t, "&lt;") then "<" + Unescape(t[4..])
    else if StartsWith(t, "&gt;") then ">" + Unescape(t[4..])
    else if StartsWith(t, "&quot;") then "\"" + Unescape(t[6..])
    else [t[0]] + Unescape(t[1..])
  }

  lemma {:induction false} EscapeFromFront(c: char, s: string)
    ensures EscapeSpec([c] + s) == EscapeChar(c) + EscapeSpec(s)
    decreases |s|
  {
    if |s| > 0 {
      var s' := s[..|s| - 1];
      assert ([c] + s)[..|s|] == [c] + s';
      EscapeFromFront(c, s');
    }
  }

  /** An entity followed by more text is read back as its one character. */
  lemma UnescapeEntity(e: string, c: char, rest: string)
    requires (e, c) in {("&amp;", '&'), ("&lt;", '<'), ("&gt;", '>'), ("&quot;", '"')}
    ensures Unescape(e + rest) == [c] + Unescape(rest)
  {
    var t := e + rest;
    assert t[..|e|] == e && t[|e|..] == rest;
    assert t[0] == '&' && t[1] == e[1];
  }

  lemma UnescapeStep(c: char, rest: string)
    ensures Unescape(EscapeChar(c) + rest) == [c] + Unescape(rest)
  {
    if c == '&' {
      UnescapeEntity("&amp;", c, rest);
    } else if c == '<' {
      UnescapeEntity("&lt;", c, rest);
    } else if c == '>' {
      UnescapeEntity("&gt;", c, rest);
    } else if c == '"' {
      UnescapeEntity("&quot;", c, rest);
    } else {
      var t := [c] + rest;
      assert t[0] == c && t[1..] == rest;
    }
  }

  /** Escaping loses nothing: unescaping gives back the original text. */
  lemma {:induction false} UnescapeEscape(s: string)
    ensures Unescape(EscapeSpec(s)) == s
    decreases |s|
  {
    if |s| > 0 {
      EscapeFromFront(s[0], s[1..]);
      assert [s[0]] + s[1..] == s;
      UnescapeStep(s[0], EscapeSpec(s[1..]));
      UnescapeEscape(s[1..]);
    }
  }

  /** The escaped text holds no raw markup character. */
  lemma {:induction false} EscapeHasNoMarkup(s: string)
    ensures '<' !in EscapeSpec(s) && '>' !in EscapeSpec(s) && '"' !in EscapeSpec(s)
  {
    if |s| > 0 {
      var init := s[..|s| - 1];
      EscapeHasNoMarkup(init);
      var e := EscapeChar(s[|s| - 1]);
      assert '<' !in e && '>' !in e && '"' !in e;
      assert EscapeSpec(s) == EscapeSpec(init) + e;
    }
  }

  // -------------------------------------------------------------- CSV

  /** String.replace("\"", "\"\""): every quote doubled. */
  function DoubleQuotes(s: string): string {
    if |s| == 0 then "" else (if s[0] == '"' then "\"\"" else [s[0]]) + DoubleQuotes(s[1..])
  }

  /** prepareCSV(String): quotes doubled, wrapped in quotes iff non-empty, then a comma. */
  function PrepareCsv(str: Option<string>): (r: string)
    ensures |r| >= 1 && r[|r| - 1] == ','
  {
    var s := if str.None? then "" else str.value;
    var body := DoubleQuotes(s);
    (if |body| != 0 then "\"" + body + "\"" else "") + ","
  }

  /** Reads back one field written by prepareCSV. */
  function ParseCsvField(t: string): Option<string> {
    if t == "," then Some("")
    else if |t| >= 3 && t[0] == '"' && t[|t| - 2] == '"' && t[|t| - 1] == ',' then
      UndoubleQuotes(t[1..|t| - 2])
    else None
  }

  /** Reads a doubled-quote body; a lone quote is malformed. */
  function UndoubleQuotes(t: string): Option<string> {
    if |t| == 0 then Some("")
    else if t[0] != '"' then
      match UndoubleQuotes(t[1..]) case None => None case Some(r) => Some([t[0]] + r)
    else if |t| >= 2 && t[1] == '"' then
      match UndoubleQuotes(t[2..]) case None => None case Some(r) => Some("\"" + r)
    else None
  }

  lemma {:induction false} UndoubleDouble(s: string)
    ensures UndoubleQuotes(DoubleQuotes(s)) == Some(s)
    ensures |DoubleQuotes(s)| >= |s|
  {
    if |s| > 0 {
      UndoubleDouble(s[1..]);
      var t := DoubleQuotes(s);
      if s[0] == '"' {
        assert t[2..] == DoubleQuotes(s[1..]);
      } else {
        assert t[1..] == DoubleQuotes(s[1..]);
      }
      assert [s[0]] + s[1..] == s;
    }
  }

  /** A CSV field written by prepareCSV reads back as the original text
      (a null input reads back as the empty text). */
  lemma PrepareCsvRoundTrip(str: Option<string>)
    ensures ParseCsvField(PrepareCsv(str)) == Some(if str.None? then "" else str.value)
  {
    var s := if str.None? then "" else str.value;
    UndoubleDouble(s);
    var body := DoubleQuotes(s);
    if |body| != 0 {
      var t := PrepareCsv(str);
      assert t[1..|t| - 2] == body;
    } else {
      assert s == "";
    }
  }

  // ------------------------------------------------------ containment

  /** containsIgnoreCase: true iff some lower-cased needle occurs in the lower-cased haystack. */
  method ContainsIgnoreCase(haystack: string, needles: seq<string>) returns (r: bool)
    ensures r <==> exists k :: 0 <= k < |needles| && Contains(Lower(haystack), Lower(needles[k]))
  {
    for k := 0 to |needles|
      invariant forall j :: 0 <= j < k ==> !Contains(Lower(haystack), Lower(needles[j]))
    {
      if Contains(Lower(haystack), Lower(needles[k])) {
        return true;
      }
    }
    return false;
  }
}
