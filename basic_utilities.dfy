/**
 * BasicUtilities.isHostLocalHost. The global EndPoint.localHost it consults
 * is passed in as `localHost` (None stands for null).
 */
module BasicUtilities {
  import opened Wrappers
  import opened JavaText

  /** True for "localhost" and "127.0.0.1" in any letter case, and otherwise
      iff a configured local host name equals `host` ignoring case. */
  function IsHostLocalHost(host: string, localHost: Option<string>): (r: bool)
    ensures EqualsIgnoreCase(host, "localhost") ==> r
    ensures host == "127.0.0.1" ==> r
    ensures localHost.None? && !EqualsIgnoreCase(host, "localhost") && host != "127.0.0.1" ==> !r
  {
    if EqualsIgnoreCase(host, "localhost") || EqualsIgnoreCase(host, "127.0.0.1") then true
    else if localHost.None? then false
    else EqualsIgnoreCase(localHost.value, host)
  }

  /** Case folding cannot produce a character that is not a letter from a different one. */
  lemma LowerCharFixesNonLetters(c: char, d: char)
    requires !('a' <= d <= 'z') && LowerChar(c) == d
    ensures c == d
  {
  }

  /** Only "127.0.0.1" itself equals "127.0.0.1" ignoring case. */
  lemma {:induction false} LoopbackIgnoringCase(host: string)
    ensures EqualsIgnoreCase(host, "127.0.0.1") <==> host == "127.0.0.1"
  {
    var ip := "127.0.0.1";
    if EqualsIgnoreCase(host, ip) {
      assert Lower(ip) == ip;
      forall k | 0 <= k < |host|
        ensures host[k] == ip[k]
      {
        assert Lower(host)[k] == ip[k];
        LowerCharFixesNonLetters(host[k], ip[k]);
      }
    }
  }

  /** With no configured local host name, exactly the two loopback spellings are local. */
  lemma NoConfiguredLocalHost(host: string)
    ensures IsHostLocalHost(host, None) <==> Lower(host) == "localhost" || host == "127.0.0.1"
  {
    LoopbackIgnoringCase(host);
    assert Lower("localhost") == "localhost";
  }

  /** With a configured name, a host is local exactly when it is a loopback
      spelling or equals that name ignoring case. */
  lemma ConfiguredLocalHost(host: string, name: string)
    ensures IsHostLocalHost(host, Some(name)) <==>
      Lower(host) == "localhost" || host == "127.0.0.1" || Lower(name) == Lower(host)
  {
    LoopbackIgnoringCase(host);
    assert Lower("localhost") == "localhost";
  }
}
