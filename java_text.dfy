/**
 * The parts of java.lang.String and java.lang.Integer that the modelled code
 * relies on: ASCII case folding, prefix and substring search, trim, regex
 * split with limit 0, Integer.parseInt and String.valueOf(int).
 */
module JavaText {
  import opened Wrappers

  // ---------------------------------------------------------------- case

  /** Character.toLowerCase restricted to ASCII letters. */
  function LowerChar(c: char): char {
    if 'A' <= c <= 'Z' then (c as int + 32) as char else c
  }

  /** String.toLowerCase, ASCII letters only. */
  function Lower(s: string): (r: string)
    ensures |r| == |s|
    ensures forall k :: 0 <= k < |s| ==> r[k] == LowerChar(s[k])
  {
    seq(|s|, k requires 0 <= k < |s| => LowerChar(s[k]))
  }

  /** Lower-casing twice is lower-casing once. */
  lemma LowerIdempotent(s: string)
    ensures Lower(Lower(s)) == Lower(s)
  {
  }

  /** A text without upper-case ASCII letters is its own lower-case form. */
  lemma LowerOfLowerCase(s: string)
    requires forall k :: 0 <= k < |s| ==> !('A' <= s[k] <= 'Z')
    ensures Lower(s) == s
  {
  }

  /** String.equalsIgnoreCase, ASCII letters only. */
  predicate EqualsIgnoreCase(a: string, b: string) {
    Lower(a) == Lower(b)
  }

  // ------------------------------------------------------------- search

  predicate StartsWith<T(==)>(s: seq<T>, p: seq<T>) {
    |p| <= |s| && s[..|p|] == p
  }

  predicate OccursAt<T(==)>(s: seq<T>, p: seq<T>, k: int) {
    0 <= k && k + |p| <= |s| && s[k..k + |p|] == p
  }

  /** The first index at or after `from` where `p` occurs in `s`, or -1. */
  function IndexOfFrom<T(==)>(s: seq<T>, p: seq<T>, from: nat): (r: int)
    ensures r == -1 || (from <= r && OccursAt(s, p, r))
    ensures r == -1 ==> forall k :: from <= k ==> !OccursAt(s, p, k)
    ensures r != -1 ==> forall k :: from <= k < r ==> !OccursAt(s, p, k)
    decreases |s| - from
  {
    if from + |p| > |s| then -1
    else if s[from..from + |p|] == p then from
    else IndexOfFrom(s, p, from + 1)
  }

  /** String.indexOf: the first occurrence of `p` in `s`, or -1. */
  function IndexOf<T(==)>(s: seq<T>, p: seq<T>): (r: int)
    ensures r == -1 || OccursAt(s, p, r)
    ensures r == -1 <==> forall k :: !OccursAt(s, p, k)
    ensures r != -1 ==> forall k :: 0 <= k < r ==> !OccursAt(s, p, k)
  {
    IndexOfFrom(s, p, 0)
  }

  predicate Contains<T(==)>(s: seq<T>, p: seq<T>) {
    IndexOf(s, p) != -1
  }

  /** String.lastIndexOf for one element: the last index of `c`, or -1. */
  function LastIndexOf<T(==)>(s: seq<T>, c: T): (r: int)
    ensures -1 <= r < |s|
    ensures r != -1 ==> s[r] == c
    ensures forall k :: r < k < |s| ==> s[k] != c
  {
    if |s| == 0 then -1
    else if s[|s| - 1] == c then |s| - 1
    else LastIndexOf(s[..|s| - 1], c)
  }

  /** An element absent before its first occurrence is found there. */
  lemma FirstOccurrence<T>(a: seq<T>, c: T, b: seq<T>)
    requires c !in a
    ensures IndexOf(a + [c] + b, [c]) == |a|
  {
    var s := a + [c] + b;
    assert OccursAt(s, [c], |a|) by { assert s[|a|..|a| + 1] == [c]; }
    forall k | 0 <= k < |a|
      ensures !OccursAt(s, [c], k)
    {
      assert s[k..k + 1] == [a[k]];
    }
  }

  /** An element absent after its last occurrence is found there. */
  lemma {:induction false} LastOccurrence<T>(a: seq<T>, c: T, b: seq<T>)
    requires c !in b
    ensures LastIndexOf(a + [c] + b, c) == |a|
    decreases |b|
  {
    var s := a + [c] + b;
    if |b| == 0 {
      assert s[|s| - 1] == c;
    } else {
      assert s[|s| - 1] == b[|b| - 1];
      assert s[..|s| - 1] == a + [c] + b[..|b| - 1];
      LastOccurrence(a, c, b[..|b| - 1]);
    }
  }

  /** The first index whose element satisfies `pred`, or -1. */
  function FirstWhere<T>(s: seq<T>, pred: T -> bool): (r: int)
    ensures -1 <= r < |s|
    ensures r != -1 ==> pred(s[r])
    ensures forall k :: 0 <= k < |s| && (r == -1 || k < r) ==> !pred(s[k])
  {
    if |s| == 0 then -1
    else if pred(s[0]) then 0
    else var k := FirstWhere(s[1..], pred); if k == -1 then -1 else k + 1
  }

  // --------------------------------------------------------------- trim

  function TrimStart(s: string): (r: string)
    ensures |r| <= |s|
  {
    if |s| > 0 && s[0] <= ' ' then TrimStart(s[1..]) else s
  }

  function TrimEnd(s: string): (r: string)
    ensures |r| <= |s|
  {
    if |s| > 0 && s[|s| - 1] <= ' ' then TrimEnd(s[..|s| - 1]) else s
  }

  /** String.trim: removes every character up to U+0020 from both ends. */
  function Trim(s: string): string {
    TrimEnd(TrimStart(s))
  }

  // -------------------------------------------------------------- split

  /** The pieces between single separator elements (no piece is dropped). */
  function RawSplitWhere<T>(s: seq<T>, isSep: T -> bool): (r: seq<seq<T>>)
    ensures |r| >= 1
    decreases |s|
  {
    var k := FirstWhere(s, isSep);
    if k == -1 then [s] else [s[..k]] + RawSplitWhere(s[k + 1..], isSep)
  }

  /** The pieces between occurrences of a non-empty literal separator. */
  function RawSplitLiteral<T(==)>(s: seq<T>, sep: seq<T>): (r: seq<seq<T>>)
    requires |sep| > 0
    ensures |r| >= 1
    decreases |s|
  {
    var k := IndexOf(s, sep);
    if k == -1 then [s] else [s[..k]] + RawSplitLiteral(s[k + |sep|..], sep)
  }

  function DropWhile<T>(s: seq<T>, pred: T -> bool): (r: seq<T>)
    ensures |r| <= |s|
    ensures |r| > 0 ==> !pred(r[0])
  {
    if |s| > 0 && pred(s[0]) then DropWhile(s[1..], pred) else s
  }

  /** The pieces between maximal runs of separator elements. */
  function RawSplitRuns<T>(s: seq<T>, isSep: T -> bool): (r: seq<seq<T>>)
    ensures |r| >= 1
    decreases |s|
  {
    var k := FirstWhere(s, isSep);
    if k == -1 then [s] else [s[..k]] + RawSplitRuns(DropWhile(s[k..], isSep), isSep)
  }

  /** String.split with limit 0 removes trailing empty strings. */
  function StripTrailingEmpty<T>(ps: seq<seq<T>>): (r: seq<seq<T>>)
    ensures |r| <= |ps| && r == ps[..|r|]
    ensures |r| > 0 ==> r[|r| - 1] != []
  {
    if |ps| > 0 && ps[|ps| - 1] == [] then StripTrailingEmpty(ps[..|ps| - 1]) else ps
  }

  /** String.split(regex) for a one-character class such as ";" or "\\s". */
  function SplitWhere(s: string, isSep: char -> bool): seq<string> {
    if FirstWhere(s, isSep) == -1 then [s] else StripTrailingEmpty(RawSplitWhere(s, isSep))
  }

  /** String.split(regex) for a literal separator such as "\r\n". */
  function SplitLiteral(s: string, sep: string): seq<string>
    requires |sep| > 0
  {
    if IndexOf(s, sep) == -1 then [s] else StripTrailingEmpty(RawSplitLiteral(s, sep))
  }

  /** String.split(regex) for a class repeated with `+`, such as "[&;]+". */
  function SplitRuns(s: string, isSep: char -> bool): seq<string> {
    if FirstWhere(s, isSep) == -1 then [s] else StripTrailingEmpty(RawSplitRuns(s, isSep))
  }

  /** No piece of a run split holds a separator. */
  lemma {:induction false} RawSplitRunsNoSep(s: string, isSep: char -> bool)
    ensures forall i, k :: 0 <= i < |RawSplitRuns(s, isSep)| && 0 <= k < |RawSplitRuns(s, isSep)[i]| ==>
      !isSep(RawSplitRuns(s, isSep)[i][k])
    decreases |s|
  {
    var k := FirstWhere(s, isSep);
    if k != -1 {
      var rest := DropWhile(s[k..], isSep);
      RawSplitRunsNoSep(rest, isSep);
      var r := RawSplitRuns(s, isSep);
      assert r == [s[..k]] + RawSplitRuns(rest, isSep);
      forall i, j | 0 <= i < |r| && 0 <= j < |r[i]|
        ensures !isSep(r[i][j])
      {
        if i > 0 {
          assert r[i] == RawSplitRuns(rest, isSep)[i - 1];
        }
      }
    }
  }

  /** No piece of String.split on a repeated class holds a separator. */
  lemma SplitRunsNoSep(s: string, isSep: char -> bool)
    ensures var r := SplitRuns(s, isSep);
      forall i, k :: 0 <= i < |r| && 0 <= k < |r[i]| ==> !isSep(r[i][k])
  {
    if FirstWhere(s, isSep) != -1 {
      RawSplitRunsNoSep(s, isSep);
      var raw := RawSplitRuns(s, isSep);
      var r := StripTrailingEmpty(raw);
      assert SplitRuns(s, isSep) == r;
      forall i, k | 0 <= i < |r| && 0 <= k < |r[i]|
        ensures !isSep(r[i][k])
      {
        assert r[i] == raw[i];
        assert 0 <= i < |raw| && 0 <= k < |raw[i]|;
        assert !isSep(raw[i][k]);
      }
    } else {
      assert SplitRuns(s, isSep) == [s];
      assert forall k :: 0 <= k < |s| ==> !isSep(s[k]);
    }
  }

  /** A text with exactly one separator element, with something after it,
      splits into the text before it and the text after it. */
  lemma SplitWhereOnce(a: string, x: char, b: string, isSep: char -> bool)
    requires isSep(x) && b != []
    requires forall k :: 0 <= k < |a| ==> !isSep(a[k])
    requires forall k :: 0 <= k < |b| ==> !isSep(b[k])
    ensures SplitWhere(a + [x] + b, isSep) == [a, b]
  {
    var s := a + [x] + b;
    assert s[|a|] == x;
    assert forall k :: 0 <= k < |a| ==> s[k] == a[k];
    assert FirstWhere(s, isSep) == |a|;
    assert s[..|a|] == a && s[|a| + 1..] == b;
    assert FirstWhere(b, isSep) == -1;
    assert RawSplitWhere(s, isSep) == [a, b];
  }

  /** A text in which a non-empty literal occurs exactly once, with something
      after it, splits into the text before it and the text after it. */
  lemma SplitLiteralOnce(s: string, sep: string, k: int)
    requires |sep| > 0 && OccursAt(s, sep, k) && k + |sep| < |s|
    requires forall j :: OccursAt(s, sep, j) ==> j == k
    ensures SplitLiteral(s, sep) == [s[..k], s[k + |sep|..]]
  {
    var b := s[k + |sep|..];
    assert IndexOf(s, sep) == k;
    forall j | OccursAt(b, sep, j)
      ensures false
    {
      assert s[k + |sep| + j..k + |sep| + j + |sep|] == b[j..j + |sep|];
      assert OccursAt(s, sep, k + |sep| + j);
    }
    assert IndexOf(b, sep) == -1;
    assert RawSplitLiteral(s, sep) == [s[..k], b];
  }

  /** The last piece of a split between single separators is the text after
      the last separator. */
  lemma {:induction false} RawSplitWhereLast(s: string, l: string, isSep: char -> bool)
    requires |l| <= |s| && s[|s| - |l|..] == l
    requires forall k :: 0 <= k < |l| ==> !isSep(l[k])
    requires |l| == |s| || isSep(s[|s| - |l| - 1])
    ensures var r := RawSplitWhere(s, isSep); r[|r| - 1] == l
    decreases |s|
  {
    var k := FirstWhere(s, isSep);
    forall i | |s| - |l| <= i < |s|
      ensures !isSep(s[i])
    {
      assert s[i] == l[i - (|s| - |l|)];
    }
    if k == -1 {
      assert s == s[|s| - |l|..];
    } else {
      var t := s[k + 1..];
      assert t[|t| - |l|..] == l;
      if |l| < |t| {
        assert t[|t| - |l| - 1] == s[|s| - |l| - 1];
      }
      RawSplitWhereLast(t, l, isSep);
    }
  }

  /** The last piece of String.split on a one-character class is the
      non-empty text after the last separator. */
  lemma SplitWhereLast(s: string, l: string, isSep: char -> bool)
    requires 0 < |l| <= |s| && s[|s| - |l|..] == l
    requires forall k :: 0 <= k < |l| ==> !isSep(l[k])
    requires |l| == |s| || isSep(s[|s| - |l| - 1])
    ensures var r := SplitWhere(s, isSep); |r| > 0 && r[|r| - 1] == l
  {
    if FirstWhere(s, isSep) == -1 {
      assert s == s[|s| - |l|..];
    } else {
      RawSplitWhereLast(s, l, isSep);
    }
  }

  /** RemoveQuotes leaves a quote-free text alone and strips surrounding quotes. */
  lemma {:induction false} RemoveQuotesOfQuoteFree(v: string)
    requires '"' !in v
    ensures RemoveQuotes(v) == v
    ensures RemoveQuotes("\"" + v + "\"") == v
  {
    if |v| > 0 {
      assert v[0] != '"';
      assert v[1..] + "\"" == (v + "\"")[1..];
      RemoveQuotesOfQuoteFree(v[1..]);
      assert RemoveQuotes(v) == [v[0]] + v[1..];
    }
    RemoveQuotesAppendQuote(v);
    assert ("\"" + v + "\"")[1..] == v + "\"";
  }

  lemma {:induction false} RemoveQuotesAppendQuote(v: string)
    requires '"' !in v
    ensures RemoveQuotes(v + "\"") == v
  {
    if |v| == 0 {
      assert RemoveQuotes("\"") == "" + RemoveQuotes("");
    } else {
      assert (v + "\"")[1..] == v[1..] + "\"";
      RemoveQuotesAppendQuote(v[1..]);
      assert v == [v[0]] + v[1..];
    }
  }

  /** Trim removes leading blanks from a text that ends and starts past U+0020. */
  lemma {:induction false} TrimLeadingBlanks(ws: string, x: string)
    requires forall k :: 0 <= k < |ws| ==> ws[k] <= ' '
    requires |x| > 0 && x[0] > ' ' && x[|x| - 1] > ' '
    ensures Trim(ws + x) == x
    decreases |ws|
  {
    if |ws| == 0 {
      assert ws + x == x;
    } else {
      assert (ws + x)[1..] == ws[1..] + x;
      TrimLeadingBlanks(ws[1..], x);
    }
  }

  /** The regex class `\s`. */
  predicate IsJavaWhitespace(c: char) {
    c == ' ' || c == '\t' || c == '\n' || c == '\U{000B}' || c == '\U{000C}' || c == '\r'
  }

  /** String.replaceAll("\"", ""). */
  function RemoveQuotes(s: string): (r: string)
    ensures '"' !in r
  {
    if |s| == 0 then ""
    else (if s[0] == '"' then "" else [s[0]]) + RemoveQuotes(s[1..])
  }

  // ------------------------------------------------------------ numbers

  predicate IsDigit(c: char) {
    '0' <= c <= '9'
  }

  predicate AllDigits(s: string) {
    forall k :: 0 <= k < |s| ==> IsDigit(s[k])
  }

  function DigitChar(d: nat): (c: char)
    requires d < 10
    ensures IsDigit(c) && c as int - '0' as int == d
  {
    ('0' as int + d) as char
  }

  /** The decimal digits of `n`, most significant first, with no leading zero. */
  function NatToDecimal(n: nat): (r: string)
    ensures |r| >= 1 && AllDigits(r)
  {
    if n < 10 then [DigitChar(n)] else NatToDecimal(n / 10) + [DigitChar(n % 10)]
  }

  /** String.valueOf(int). */
  function IntToDecimal(n: int): (r: string)
    ensures |r| >= 1
    ensures (n < 0) == (r[0] == '-')
    ensures ':' !in r
    ensures forall k :: 0 <= k < |r| ==> r[k] == '-' || IsDigit(r[k])
  {
    if n < 0 then "-" + NatToDecimal(-n) else NatToDecimal(n)
  }

  /** The value of a string of decimal digits, most significant first. */
  function DigitsValue(s: string): nat
    requires AllDigits(s)
  {
    if |s| == 0 then 0 else DigitsValue(s[..|s| - 1]) * 10 + (s[|s| - 1] as int - '0' as int)
  }

  /** Integer.parseInt: an optional sign, at least one ASCII digit, a value in `int` range. */
  function ParseInt(s: string): Option<int> {
    if |s| == 0 then None
    else
      var body := if s[0] == '-' || s[0] == '+' then s[1..] else s;
      if |body| == 0 || !AllDigits(body) then None
      else
        var v: int := if s[0] == '-' then -(DigitsValue(body) as int) else DigitsValue(body);
        if IsInt32(v) then Some(v) else None
  }

  lemma {:induction false} DigitsValueOfDecimal(n: nat)
    ensures DigitsValue(NatToDecimal(n)) == n
  {
    if n >= 10 {
      var s := NatToDecimal(n);
      assert s[..|s| - 1] == NatToDecimal(n / 10);
      DigitsValueOfDecimal(n / 10);
    }
  }

  /** Integer.parseInt inverts String.valueOf on every `int`. */
  lemma ParseIntOfDecimal(n: int)
    requires IsInt32(n)
    ensures ParseInt(IntToDecimal(n)) == Some(n)
  {
    if n < 0 {
      DigitsValueOfDecimal(-n);
      assert IntToDecimal(n)[1..] == NatToDecimal(-n);
    } else {
      DigitsValueOfDecimal(n);
    }
  }

  /** String.valueOf(int) never maps two `int`s to the same text. */
  lemma DecimalInjective(m: int, n: int)
    requires IsInt32(m) && IsInt32(n) && IntToDecimal(m) == IntToDecimal(n)
    ensures m == n
  {
    ParseIntOfDecimal(m);
    ParseIntOfDecimal(n);
  }
}
