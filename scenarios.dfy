/**
 * Worked examples with a local address of 10.0.0.5 and an intercept domain
 * of `test.local`.
 */
module Scenarios {
  import opened Wrappers
  import opened Strings
  import opened Dns
  import opened Proxy
  import opened ProxyProperties

  const LocalIp: Addr := [10, 0, 0, 5]
  const Domain: string := "test.local"

  /** A one-question request with recursion desired and every other field zero. */
  function Query(id: uint16, name: string, qtype: uint16): Msg {
    Msg(MsgHeader(id, false, 0, false, false, true, false, false, false, false, 0),
        [Question(name, qtype, ClassINET)], [], [], [], [])
  }

  /** `api.test.local` is already lower-case. */
  lemma ApiTestLocalIsLower()
    ensures ToLower("api.test.local") == "api.test.local"
  {
    assert IsLower("api.test.local");
    ToLowerFixesLower("api.test.local");
  }

  /** `api.test.local` ends with the domain. */
  lemma ApiTestLocalMatches()
    ensures Intercepts("api.test.local", Domain)
  {
    assert IsLower(Domain);
    assert "api.test.local" == "api." + Domain;
    NoLabelBoundary("api.", Domain);
  }

  /** `api.test.local` type A is answered locally with one A record for 10.0.0.5, TTL 3600. */
  lemma InterceptedAQuery(id: uint16, exchange: Msg -> Option<Msg>, pack: Msg -> Option<Wire>)
    ensures var out := Dispatch(Query(id, "api.test.local", TypeA), LocalIp, Domain, exchange, pack);
      && out.Intercepted?
      && out.reply.header.id == id
      && out.reply.answer == [RR(Header("api.test.local", ClassINET, 3600), TypeA, [10, 0, 0, 5])]
  {
    ApiTestLocalIsLower();
    ApiTestLocalMatches();
    FirstMatchTypeA(Query(id, "api.test.local", TypeA), LocalIp, Domain, exchange, pack, 0);
  }

  /** `api.test.local` type AAAA (28) gets an empty answer section and is not forwarded. */
  lemma InterceptedAaaaQuery(id: uint16, exchange: Msg -> Option<Msg>, pack: Msg -> Option<Wire>)
    ensures var out := Dispatch(Query(id, "api.test.local", 28), LocalIp, Domain, exchange, pack);
      out.Intercepted? && out.reply.answer == []
  {
    ApiTestLocalMatches();
    FirstMatchOtherType(Query(id, "api.test.local", 28), LocalIp, Domain, exchange, pack, 0);
  }

  /** `example.com` does not end with the domain. */
  lemma ExampleComMisses()
    ensures !Intercepts("example.com", Domain)
  {
    var l := ToLower("example.com");
    assert "example.com"[10] == 'm';
    assert l[10] == 'm';
    assert Domain[9] == 'l';
  }

  /** `example.com` is forwarded as it is, and the client gets the upstream's reply, encoded. */
  lemma ForwardedQuery(id: uint16, exchange: Msg -> Option<Msg>, pack: Msg -> Option<Wire>)
    ensures var r := Query(id, "example.com", TypeA);
      var out := Dispatch(r, LocalIp, Domain, exchange, pack);
      && out.Forwarded? && out.query == r && out.upstreamReply == exchange(r)
      && (exchange(r).Some? ==> out.written == pack(exchange(r).value))
  {
    ExampleComMisses();
    NoMatchForwardsVerbatim(Query(id, "example.com", TypeA), LocalIp, Domain, exchange, pack);
  }

  /** When the upstream exchange times out nothing at all is written back. */
  lemma UpstreamTimeout(id: uint16, pack: Msg -> Option<Wire>)
    ensures var out := Dispatch(Query(id, "example.com", TypeA), LocalIp, Domain, m => None, pack);
      out.Forwarded? && out.written == None
  {
    ForwardedQuery(id, m => None, pack);
    NothingWrittenOnError(Query(id, "example.com", TypeA), LocalIp, Domain, m => None, pack);
  }

  /** A prefix that does not end on a label boundary still matches: `eviltest.local` is intercepted. */
  lemma SuffixWithoutLabelBoundary(id: uint16, exchange: Msg -> Option<Msg>, pack: Msg -> Option<Wire>)
    ensures Dispatch(Query(id, "eviltest.local", TypeA), LocalIp, Domain, exchange, pack).Intercepted?
  {
    assert IsLower(Domain);
    assert "eviltest.local" == "evil" + Domain;
    NoLabelBoundary("evil", Domain);
    assert Query(id, "eviltest.local", TypeA).question[0].name == "evil" + Domain;
  }

  /** The domain is not lower-cased: configured as `Test.Local`, even `api.test.local` is forwarded. */
  lemma MixedCaseDomainForwards(id: uint16, exchange: Msg -> Option<Msg>, pack: Msg -> Option<Wire>)
    ensures Dispatch(Query(id, "api.test.local", TypeA), LocalIp, "Test.Local", exchange, pack).Forwarded?
  {
    UpperCaseDomainNeverIntercepts("api.test.local", "Test.Local", 0);
    NoMatchForwardsVerbatim(Query(id, "api.test.local", TypeA), LocalIp, "Test.Local", exchange, pack);
  }

  /**
   * Names arrive from the DNS codec fully qualified, with a trailing dot. The
   * wire query for `api.test.local` carries `api.test.local.`, which does not
   * end with `test.local`.
   */
  lemma FullyQualifiedNameMisses()
    ensures !Intercepts("api.test.local.", Domain)
  {
    assert "api.test.local."[14] == '.';
    assert Domain[9] == 'l';
    TrailingDotNeedsDottedDomain("api.test.local.", Domain);
  }

  /**
   * So under the domain `test.local`, the fully qualified query for
   * `api.test.local` is forwarded, not answered locally.
   */
  lemma FullyQualifiedQueryForwarded(id: uint16, exchange: Msg -> Option<Msg>, pack: Msg -> Option<Wire>)
    ensures Dispatch(Query(id, "api.test.local.", TypeA), LocalIp, Domain, exchange, pack).Forwarded?
  {
    FullyQualifiedNameMisses();
    NoMatchForwardsVerbatim(Query(id, "api.test.local.", TypeA), LocalIp, Domain, exchange, pack);
  }

  /** `api.test.local.` ends with `test.local.`. */
  lemma FullyQualifiedNameMatchesDottedDomain()
    ensures Intercepts("api.test.local.", "test.local.")
  {
    assert IsLower("test.local.");
    assert "api.test.local." == "api." + "test.local.";
    NoLabelBoundary("api.", "test.local.");
  }

  /** Configured with the trailing dot, as `test.local.`, the fully qualified query is intercepted. */
  lemma FullyQualifiedDomainMatches(id: uint16, exchange: Msg -> Option<Msg>, pack: Msg -> Option<Wire>)
    ensures Dispatch(Query(id, "api.test.local.", TypeA), LocalIp, "test.local.", exchange, pack).Intercepted?
  {
    FullyQualifiedNameMatchesDottedDomain();
    assert Intercepts(Query(id, "api.test.local.", TypeA).question[0].name, "test.local.");
  }
}
