/**
 * EndPoint: a cluster node named by host and port, with a weight, an id and
 * a type. Identity (equals, hashCode) looks only at host and port; ordering
 * (compareTo) looks only at the host.
 */
module EndPoints {
  import opened Wrappers
  import opened JavaText

  /** The part of an endpoint that equals and hashCode look at. */
  datatype Address = Address(host: string, port: int)

  // ------------------------------------------------- java.lang.String parts

  /** String.hashCode: h = 31 * h + c over the characters, in `int` arithmetic. */
  function StringHash(s: string): (r: int)
    ensures IsInt32(r)
  {
    if |s| == 0 then 0 else Wrap32(31 * StringHash(s[..|s| - 1]) + s[|s| - 1] as int)
  }

  /** The textbook polynomial s[0]*31^(n-1) + ... + s[n-1], unbounded. */
  function HashPolynomial(s: string): int {
    if |s| == 0 then 0 else 31 * HashPolynomial(s[..|s| - 1]) + s[|s| - 1] as int
  }

  /** Wrapping after every step gives the polynomial wrapped once at the end. */
  lemma {:induction false} StringHashIsWrappedPolynomial(s: string)
    ensures StringHash(s) == Wrap32(HashPolynomial(s))
  {
    if |s| > 0 {
      var init := s[..|s| - 1];
      StringHashIsWrappedPolynomial(init);
      WrapAffine(StringHash(init), HashPolynomial(init), 31, s[|s| - 1] as int);
    }
  }

  /** String.compareTo: the first differing characters' difference, else the length difference. */
  function CompareStrings(a: string, b: string): int {
    if |a| == 0 || |b| == 0 then |a| - |b|
    else if a[0] != b[0] then a[0] as int - b[0] as int
    else CompareStrings(a[1..], b[1..])
  }

  /** compareTo is zero exactly on equal strings. */
  lemma {:induction false} CompareStringsZero(a: string, b: string)
    ensures CompareStrings(a, b) == 0 <==> a == b
  {
    if |a| > 0 && |b| > 0 && a[0] == b[0] {
      CompareStringsZero(a[1..], b[1..]);
      assert a == [a[0]] + a[1..] && b == [b[0]] + b[1..];
    }
  }

  /** compareTo is antisymmetric. */
  lemma {:induction false} CompareStringsAntisymmetric(a: string, b: string)
    ensures CompareStrings(a, b) == -CompareStrings(b, a)
  {
    if |a| > 0 && |b| > 0 && a[0] == b[0] {
      CompareStringsAntisymmetric(a[1..], b[1..]);
    }
  }

  predicate IsColon(c: char) {
    c == ':'
  }

  /** The ports `new InetSocketAddress(host, port)` accepts. */
  predicate ValidPort(port: int) {
    0 <= port <= 0xFFFF
  }

  /** The check the EndPoint constructor makes through setInetSocketAddress:
      a port outside 0..65535 is an IllegalArgumentException. */
  function CheckAddress(host: string, port: int): (r: Result<Address>)
    ensures r.Ok? <==> ValidPort(port)
    ensures r.Ok? ==> r.value == Address(host, port)
    ensures r.Err? ==> r.error == RuntimeFailure(IllegalArgument)
  {
    if ValidPort(port) then Ok(Address(host, port)) else Err(RuntimeFailure(IllegalArgument))
  }

  /** EndPoint.fromString on its address part: split on ':', host from piece 0,
      port by Integer.parseInt from piece 1, then the constructor's port check. */
  function ParseEndPoint(str: string): (r: Result<Address>)
    ensures r.Err? ==> r.error in {RuntimeFailure(IndexOutOfBounds), RuntimeFailure(NumberFormat),
                                  RuntimeFailure(IllegalArgument)}
    ensures r.Ok? ==> ':' !in r.value.host && ValidPort(r.value.port)
  {
    var values := SplitWhere(str, IsColon);
    if |values| < 2 then Err(RuntimeFailure(IndexOutOfBounds))
    else
      match ParseInt(values[1])
      case None => Err(RuntimeFailure(NumberFormat))
      case Some(p) =>
        ColonFreePieces(str);
        CheckAddress(values[0], p)
  }

  /** No piece of a split on ':' contains ':'. */
  lemma ColonFreePieces(str: string)
    ensures forall k :: 0 <= k < |SplitWhere(str, IsColon)| ==> ':' !in SplitWhere(str, IsColon)[k]
  {
    if FirstWhere(str, IsColon) != -1 {
      RawPiecesColonFree(str);
    }
  }

  lemma {:induction false} RawPiecesColonFree(s: string)
    ensures forall k :: 0 <= k < |RawSplitWhere(s, IsColon)| ==> ':' !in RawSplitWhere(s, IsColon)[k]
    decreases |s|
  {
    var i := FirstWhere(s, IsColon);
    if i != -1 {
      RawPiecesColonFree(s[i + 1..]);
      assert forall j :: 0 <= j < i ==> s[..i][j] != ':';
    }
  }

  /** The first ':' of `a + ":" + b` is the one after `a` when `a` has none. */
  lemma FirstColonAfter(a: string, b: string)
    requires ':' !in a
    ensures FirstWhere(a + ":" + b, IsColon) == |a|
  {
    var s := a + ":" + b;
    assert IsColon(s[|a|]);
    assert forall k :: 0 <= k < |a| ==> s[k] == a[k];
  }

  /** fromString inverts toString for every host without ':' and every port
      in 0..65535; any other `int` port is refused by the constructor. */
  lemma ParseEndPointOfText(host: string, port: int)
    requires ':' !in host && IsInt32(port)
    ensures ValidPort(port) ==> ParseEndPoint(host + ":" + IntToDecimal(port)) == Ok(Address(host, port))
    ensures !ValidPort(port) ==> ParseEndPoint(host + ":" + IntToDecimal(port)) == Err(RuntimeFailure(IllegalArgument))
  {
    var digits := IntToDecimal(port);
    var s := host + ":" + digits;
    FirstColonAfter(host, digits);
    assert s[..|host|] == host && s[|host| + 1..] == digits;
    assert forall k :: 0 <= k < |digits| ==> !IsColon(digits[k]);
    assert RawSplitWhere(s, IsColon) == [host, digits];
    assert SplitWhere(s, IsColon) == [host, digits];
    ParseIntOfDecimal(port);
  }

  /** A host with ':' in it (an IPv6 literal such as "::1") does not survive the round trip. */
  lemma ColonHostDoesNotRoundTrip()
    ensures ParseEndPoint("::1:80").Err?
  {
    var s := "::1:80";
    assert FirstWhere(s, IsColon) == 0;
    assert s[1..] == ":1:80";
    assert FirstWhere(s[1..], IsColon) == 0;
    assert s[1..][1..] == "1:80";
    var rest := RawSplitWhere("1:80", IsColon);
    assert SplitWhere(s, IsColon)[1] == "";
  }

  // ------------------------------------------------------------ EndPoint

  class EndPoint {
    var host: string
    var port: int
    var weight: int
    var id: int
    /** The `type_` field; None stands for null. */
    var kind: Option<string>

    /** The object EndPoint(String host, int port) builds once its port check
        has passed; `Create` is the constructor with that check. Resolving the
        socket address is left out. */
    constructor(host: string, port: int)
      requires ValidPort(port)
      ensures this.host == host && this.port == port
      ensures weight == 0 && id == 0 && kind == None
    {
      this.host := host;
      this.port := port;
      weight := 0;
      id := 0;
      kind := None;
    }

    /** new EndPoint(host, port): a fresh endpoint, or the IllegalArgumentException
        setInetSocketAddress raises for a port outside 0..65535. */
    static method Create(host: string, port: int) returns (r: Result<EndPoint>)
      ensures r.Ok? <==> ValidPort(port)
      ensures r.Err? ==> r.error == RuntimeFailure(IllegalArgument)
      ensures r.Ok? ==> fresh(r.value) && r.value.Key() == Address(host, port)
      ensures r.Ok? ==> r.value.weight == 0 && r.value.id == 0 && r.value.kind == None
    {
      if !ValidPort(port) {
        return Err(RuntimeFailure(IllegalArgument));
      }
      var e := new EndPoint(host, port);
      return Ok(e);
    }

    function Key(): Address
      reads this
    {
      Address(host, port)
    }

    /** equals(Object): another EndPoint (None for null or another class) with the same host and port. */
    function Equals(o: EndPoint?): (r: bool)
      reads this, o
      ensures r ==> o != null && o.Key() == Key()
      ensures o != null && o.Key() == Key() ==> r
    {
      o != null && host == o.host && port == o.port
    }

    /** hashCode(): String.hashCode of the host followed by the decimal port. */
    function HashCode(): (r: int)
      reads this
      ensures IsInt32(r)
      ensures r == Wrap32(HashPolynomial(host + IntToDecimal(port)))
    {
      StringHashIsWrappedPolynomial(host + IntToDecimal(port));
      StringHash(host + IntToDecimal(port))
    }

    /** compareTo(EndPoint): the hosts compared as strings; the port is ignored. */
    function CompareTo(rhs: EndPoint): (r: int)
      reads this, rhs
      ensures r == 0 <==> host == rhs.host
      ensures r == -CompareStrings(rhs.host, host)
    {
      CompareStringsZero(host, rhs.host);
      CompareStringsAntisymmetric(host, rhs.host);
      CompareStrings(host, rhs.host)
    }

    /** toString(): host + ":" + port. */
    function ToString(): string
      reads this
    {
      host + ":" + IntToDecimal(port)
    }

    method SetPort(port: int)
      requires IsInt32(port)
      modifies this
      ensures this.port == port
      ensures host == old(host) && weight == old(weight) && id == old(id) && kind == old(kind)
    {
      this.port := port;
    }

    method SetWeight(weight: int)
      requires IsInt32(weight)
      modifies this
      ensures this.weight == weight
      ensures host == old(host) && port == old(port) && id == old(id) && kind == old(kind)
    {
      this.weight := weight;
    }

    method SetId(id: int)
      requires IsInt32(id)
      modifies this
      ensures this.id == id
      ensures host == old(host) && port == old(port) && weight == old(weight) && kind == old(kind)
    {
      this.id := id;
    }

    method SetType(kind: Option<string>)
      modifies this
      ensures this.kind == kind
      ensures host == old(host) && port == old(port) && weight == old(weight) && id == old(id)
    {
      this.kind := kind;
    }
  }

  /** fromString(e.toString()) has e's host and port when the host has no ':'
      and the port is one InetSocketAddress accepts; a port setPort put out of
      that range makes fromString throw IllegalArgumentException. */
  lemma ToStringRoundTrip(e: EndPoint)
    requires ':' !in e.host && IsInt32(e.port)
    ensures ValidPort(e.port) ==> ParseEndPoint(e.ToString()) == Ok(e.Key())
    ensures !ValidPort(e.port) ==> ParseEndPoint(e.ToString()) == Err(RuntimeFailure(IllegalArgument))
  {
    ParseEndPointOfText(e.host, e.port);
  }

  /** Equal endpoints have equal hash codes. */
  lemma EqualsImpliesSameHash(a: EndPoint, b: EndPoint)
    requires a.Equals(b)
    ensures a.HashCode() == b.HashCode()
  {
  }

  /** equals is an equivalence on endpoints. */
  lemma EqualsIsEquivalence(a: EndPoint, b: EndPoint, c: EndPoint)
    ensures a.Equals(a)
    ensures a.Equals(b) ==> b.Equals(a)
    ensures a.Equals(b) && b.Equals(c) ==> a.Equals(c)
  {
  }

  /** Ordering is coarser than equality: same host, different ports compare 0 yet are not equal. */
  lemma CompareToIgnoresPort(a: EndPoint, b: EndPoint)
    requires a.host == b.host && a.port != b.port
    ensures a.CompareTo(b) == 0 && !a.Equals(b)
  {
  }

  /** fromString(String): the parsed endpoint, or the runtime exception the parse raises. */
  method FromString(str: string) returns (r: Result<EndPoint>)
    ensures ParseEndPoint(str).Err? ==> r == Err(ParseEndPoint(str).error)
    ensures ParseEndPoint(str).Ok? ==> r.Ok? && fresh(r.value) && r.value.Key() == ParseEndPoint(str).value
    ensures r.Ok? ==> r.value.weight == 0 && r.value.id == 0 && r.value.kind == None
  {
    var values := SplitWhere(str, IsColon);
    if |values| < 2 {
      return Err(RuntimeFailure(IndexOutOfBounds));
    }
    var port := ParseInt(values[1]);
    if port.None? {
      return Err(RuntimeFailure(NumberFormat));
    }
    r := EndPoint.Create(values[0], port.value);
  }
}
