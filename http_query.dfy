/**
 * parseQueryString and parseGETRequest: a query string split on runs of '&'
 * and ';', each `key=value` piece with a non-empty key and value stored under
 * the lower-cased key with its value passed through urlDecode (a later
 * duplicate overwrites an earlier one); and the request line's target between
 * its first and last space, whose text after the first '?' is that query.
 *
 * urlDecode (URLDecoder.decode, which yields "" on malformed input) is the
 * parameter `decode`.
 */
module HttpQuery {
  import opened Wrappers
  import opened JavaText

  predicate IsQuerySep(c: char) {
    c == '&' || c == ';'
  }

  /** req.split("[&;]+"). */
  function Pieces(q: string): seq<string> {
    SplitRuns(q, IsQuerySep)
  }

  /** One turn of the loop: the piece's pair put into `args`, or `args` when the piece is skipped. */
  function AddPiece(args: map<string, string>, kv: string, decode: string -> string): map<string, string> {
    if |kv| < 2 then args
    else
      var loc := IndexOf(kv, "=");
      if loc < 1 then args
      else
        var key, value := kv[..loc], kv[loc + 1..];
        if |key| < 1 || |value| < 1 then args
        else args[Lower(key) := decode(value)]
  }

  /** The map after the loop has gone through `kvs` in order. */
  function QueryArgs(kvs: seq<string>, decode: string -> string): map<string, string> {
    if |kvs| == 0 then map[]
    else AddPiece(QueryArgs(kvs[..|kvs| - 1], decode), kvs[|kvs| - 1], decode)
  }

  /** parseQueryString: null (None) for the empty string, else the map. */
  function ParseQueryStringF(req: string, decode: string -> string): Option<map<string, string>> {
    if |req| < 1 then None else Some(QueryArgs(Pieces(req), decode))
  }

  /** parseQueryString, with its loop over the pieces. */
  method ParseQueryString(req: string, decode: string -> string) returns (r: Option<map<string, string>>)
    ensures r == ParseQueryStringF(req, decode)
  {
    if |req| < 1 {
      return None;
    }
    var kvs := Pieces(req);
    var args: map<string, string> := map[];
    var n := 0;
    while n < |kvs|
      invariant 0 <= n <= |kvs|
      invariant args == QueryArgs(kvs[..n], decode)
    {
      var kv := kvs[n];
      assert kvs[..n + 1][..n] == kvs[..n];
      if |kv| >= 2 {
        var loc := IndexOf(kv, "=");
        if loc >= 1 {
          var key, value := kv[..loc], kv[loc + 1..];
          if |key| >= 1 && |value| >= 1 {
            args := args[Lower(key) := decode(value)];
          }
        }
      }
      n := n + 1;
    }
    assert kvs[..n] == kvs;
    return Some(args);
  }

  /** The first space comes no later than the last one. */
  lemma SpacesOrdered(req: string)
    ensures var s, e := IndexOf(req, " "), LastIndexOf(req, ' ');
      s >= 0 && e >= 0 ==> s <= e
  {
    var e := LastIndexOf(req, ' ');
    if e >= 0 {
      assert OccursAt(req, " ", e) by { assert req[e..e + 1] == [req[e]]; }
    }
  }

  /** parseGETRequest: the query of the target between the first and the last space. */
  function ParseGETF(req: string, decode: string -> string): Option<map<string, string>> {
    var s, e := IndexOf(req, " "), LastIndexOf(req, ' ');
    if s < 0 || e < 0 || s == e then None
    else
      SpacesOrdered(req);
      var target := req[s + 1..e];
      var loc := IndexOf(target, "?");
      if loc < 0 then None else ParseQueryStringF(target[loc + 1..], decode)
  }

  /** parseGETRequest. */
  method ParseGETRequest(req: string, decode: string -> string) returns (r: Option<map<string, string>>)
    ensures r == ParseGETF(req, decode)
  {
    var s, e := IndexOf(req, " "), LastIndexOf(req, ' ');
    if s < 0 || e < 0 || s == e {
      return None;
    }
    SpacesOrdered(req);
    var target := req[s + 1..e];
    var loc := IndexOf(target, "?");
    if loc < 0 {
      return None;
    }
    r := ParseQueryString(target[loc + 1..], decode);
  }

  // ----------------------------------------------------------- properties

  /** A piece the loop keeps: '=' at index 1 or later, with something after it. */
  predicate Kept(kv: string) {
    var loc := IndexOf(kv, "=");
    1 <= loc && loc + 1 < |kv|
  }

  /** The key a kept piece is stored under. */
  function KeyOf(kv: string): string
    requires Kept(kv)
  {
    Lower(kv[..IndexOf(kv, "=")])
  }

  /** The raw value of a kept piece. */
  function ValueOf(kv: string): string
    requires Kept(kv)
  {
    kv[IndexOf(kv, "=") + 1..]
  }

  /** The pieces hold no '&' and no ';'. */
  lemma PiecesHaveNoSeparator(q: string)
    ensures forall i, k :: 0 <= i < |Pieces(q)| && 0 <= k < |Pieces(q)[i]| ==> !IsQuerySep(Pieces(q)[i][k])
  {
    SplitRunsNoSep(q, IsQuerySep);
  }

  /** The loop turn puts exactly the kept pieces, each under its key. */
  lemma AddPieceKept(args: map<string, string>, kv: string, decode: string -> string)
    ensures Kept(kv) ==> AddPiece(args, kv, decode) == args[KeyOf(kv) := decode(ValueOf(kv))]
    ensures !Kept(kv) ==> AddPiece(args, kv, decode) == args
  {
  }

  /** The keys of the kept pieces. */
  function KeptKeys(kvs: seq<string>): set<string> {
    set j | 0 <= j < |kvs| && Kept(kvs[j]) :: KeyOf(kvs[j])
  }

  /** The map holds exactly the keys of the kept pieces. */
  lemma {:induction false} QueryArgsKeys(kvs: seq<string>, decode: string -> string)
    ensures QueryArgs(kvs, decode).Keys == KeptKeys(kvs)
  {
    if |kvs| > 0 {
      var n := |kvs| - 1;
      var init := kvs[..n];
      QueryArgsKeys(init, decode);
      AddPieceKept(QueryArgs(init, decode), kvs[n], decode);
      KeptKeysSnoc(kvs);
    }
  }

  /** The kept keys of a sequence: those of all but its last piece, and the last piece's. */
  lemma KeptKeysSnoc(kvs: seq<string>)
    requires |kvs| > 0
    ensures var n := |kvs| - 1;
      KeptKeys(kvs) == KeptKeys(kvs[..n]) + (if Kept(kvs[n]) then {KeyOf(kvs[n])} else {})
  {
    var n := |kvs| - 1;
    var init := kvs[..n];
    forall k | k in KeptKeys(kvs)
      ensures k in KeptKeys(init) + (if Kept(kvs[n]) then {KeyOf(kvs[n])} else {})
    {
      var j :| 0 <= j < |kvs| && Kept(kvs[j]) && KeyOf(kvs[j]) == k;
      if j < n {
        assert init[j] == kvs[j];
      }
    }
    forall k | k in KeptKeys(init)
      ensures k in KeptKeys(kvs)
    {
      var j :| 0 <= j < n && Kept(init[j]) && KeyOf(init[j]) == k;
      assert init[j] == kvs[j];
    }
  }

  /** Nothing later overwrites piece j's key. */
  predicate LastWithKey(kvs: seq<string>, j: int)
    requires 0 <= j < |kvs| && Kept(kvs[j])
  {
    forall j' :: j < j' < |kvs| && Kept(kvs[j']) ==> KeyOf(kvs[j']) != KeyOf(kvs[j])
  }

  /** A key maps to the decoded value of the last kept piece with that key. */
  lemma {:induction false} QueryArgsLastWins(kvs: seq<string>, decode: string -> string)
    ensures forall j :: 0 <= j < |kvs| && Kept(kvs[j]) && LastWithKey(kvs, j) ==>
      KeyOf(kvs[j]) in QueryArgs(kvs, decode) && QueryArgs(kvs, decode)[KeyOf(kvs[j])] == decode(ValueOf(kvs[j]))
  {
    if |kvs| > 0 {
      var n := |kvs| - 1;
      var init := kvs[..n];
      QueryArgsLastWins(init, decode);
      AddPieceKept(QueryArgs(init, decode), kvs[n], decode);
      forall j | 0 <= j < |kvs| && Kept(kvs[j]) && LastWithKey(kvs, j)
        ensures KeyOf(kvs[j]) in QueryArgs(kvs, decode) && QueryArgs(kvs, decode)[KeyOf(kvs[j])] == decode(ValueOf(kvs[j]))
      {
        if j < n {
          assert init[j] == kvs[j];
          assert LastWithKey(init, j) by {
            forall j' | j < j' < |init| && Kept(init[j'])
              ensures KeyOf(init[j']) != KeyOf(init[j])
            {
              assert init[j'] == kvs[j'];
            }
          }
        }
      }
    }
  }

  /** Every key is lower-case and non-empty. */
  lemma {:induction false} QueryKeysLower(kvs: seq<string>, decode: string -> string)
    ensures forall k :: k in QueryArgs(kvs, decode) ==> |k| >= 1 && Lower(k) == k
  {
    if |kvs| > 0 {
      var kv := kvs[|kvs| - 1];
      QueryKeysLower(kvs[..|kvs| - 1], decode);
      AddPieceKept(QueryArgs(kvs[..|kvs| - 1], decode), kv, decode);
      if Kept(kv) {
        KeyOfLower(kv);
      }
    }
  }

  /** A kept piece's key is non-empty and already lower-case. */
  lemma KeyOfLower(kv: string)
    requires Kept(kv)
    ensures |KeyOf(kv)| >= 1 && Lower(KeyOf(kv)) == KeyOf(kv)
  {
    LowerIdempotent(kv[..IndexOf(kv, "=")]);
  }

  /** The empty query is null; any other query is a map. */
  lemma ParseQueryStringNull(req: string, decode: string -> string)
    ensures ParseQueryStringF(req, decode).None? <==> req == ""
  {
  }

  /** A request line `m SP target SP v`, whose method and version hold no
      space and whose path holds no '?', yields the arguments of the query
      after that '?', whatever spaces the path and query hold. */
  lemma GetLineArgs(m: string, path: string, q: string, v: string, decode: string -> string)
    requires ' ' !in m && ' ' !in v && '?' !in path
    ensures ParseGETF(m + " " + path + "?" + q + " " + v, decode) == ParseQueryStringF(q, decode)
  {
    var req := m + " " + path + "?" + q + " " + v;
    var mid := path + "?" + q;
    assert req == m + [' '] + (mid + " " + v);
    FirstOccurrence(m, ' ', mid + " " + v);
    assert req == (m + " " + mid) + [' '] + v;
    LastOccurrence(m + " " + mid, ' ', v);
    var target := req[|m| + 1..|req| - |v| - 1];
    assert target == path + ['?'] + q;
    FirstOccurrence(path, '?', q);
    assert target[|path| + 1..] == q;
    ParseGETAt(req, decode, |m|, |req| - |v| - 1, |path|);
  }

  /** parseGETRequest once its three indices are known. */
  lemma ParseGETAt(req: string, decode: string -> string, s: int, e: int, loc: int)
    requires IndexOf(req, " ") == s && LastIndexOf(req, ' ') == e && 0 <= s < e
    requires IndexOf(req[s + 1..e], "?") == loc >= 0
    ensures ParseGETF(req, decode) == ParseQueryStringF(req[s + 1..e][loc + 1..], decode)
  {
  }

  /** Without two distinct spaces enclosing a '?', parseGETRequest is null. */
  lemma GetNeedsTwoSpacesAndQuery(req: string, decode: string -> string)
    ensures ParseGETF(req, decode).Some? ==>
      exists s, e :: 0 <= s < e < |req| && req[s] == ' ' && req[e] == ' ' && '?' in req[s + 1..e]
  {
    var s, e := IndexOf(req, " "), LastIndexOf(req, ' ');
    if s >= 0 && e >= 0 && s != e {
      assert OccursAt(req, " ", e) by { assert req[e..e + 1] == [req[e]]; }
      assert req[s] == req[s..s + 1][0];
      var target := req[s + 1..e];
      var loc := IndexOf(target, "?");
      if loc >= 0 {
        assert target[loc] == target[loc..loc + 1][0];
      }
    }
  }
}
