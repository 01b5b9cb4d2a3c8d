/**
 * What the dispatcher guarantees, proved about its specification `Dispatch`
 * (which `HandleDns` is proved to compute).
 */
module ProxyProperties {
  import opened Wrappers
  import opened Strings
  import opened Dns
  import opened Proxy

  // ---------------------------------------------------------------------------
  // Classification

  /** A name is intercepted iff its lower-cased form is some string followed by the domain. */
  lemma InterceptsIffSuffix(name: string, interceptDomain: string)
    ensures Intercepts(name, interceptDomain) <==> exists p :: ToLower(name) == p + interceptDomain
  {
    HasSuffixIffConcat(ToLower(name), interceptDomain);
  }

  /**
   * Only the name is lower-cased: a domain configured with an upper-case
   * letter intercepts nothing.
   */
  lemma UpperCaseDomainNeverIntercepts(name: string, interceptDomain: string, k: nat)
    requires k < |interceptDomain| && IsUpper(interceptDomain[k])
    ensures !Intercepts(name, interceptDomain)
  {
  }

  /**
   * There is no label-boundary check: any prefix in front of a lower-case
   * domain is intercepted (so `eviltest.local` matches `test.local`).
   */
  lemma NoLabelBoundary(prefix: string, interceptDomain: string)
    requires IsLower(interceptDomain)
    ensures Intercepts(prefix + interceptDomain, interceptDomain)
  {
    ToLowerConcat(prefix, interceptDomain);
    ToLowerFixesLower(interceptDomain);
    HasSuffixIffConcat(ToLower(prefix + interceptDomain), interceptDomain);
  }

  /**
   * A name that ends with a dot, as fully qualified names do, is never
   * intercepted by a domain that does not itself end with a dot.
   */
  lemma TrailingDotNeedsDottedDomain(name: string, interceptDomain: string)
    requires |name| > 0 && name[|name| - 1] == '.'
    requires |interceptDomain| > 0 && interceptDomain[|interceptDomain| - 1] != '.'
    ensures !Intercepts(name, interceptDomain)
  {
    var l := ToLower(name);
    assert l[|l| - 1] == '.';
  }

  // ---------------------------------------------------------------------------
  // Which path is taken

  /**
   * With an empty intercept domain every question matches, so the first one
   * is always answered locally. The handler itself accepts an empty domain;
   * start-up refuses one (main.go:38-40), so the running program never
   * reaches this case.
   */
  lemma EmptyDomainInterceptsFirstQuestion(r: Msg, localIp: Addr,
                                           exchange: Msg -> Option<Msg>, pack: Msg -> Option<Wire>)
    requires |r.question| > 0
    ensures Dispatch(r, localIp, "", exchange, pack).Intercepted?
    ensures Dispatch(r, localIp, "", exchange, pack).reply == InterceptReply(r, r.question[0], localIp)
  {
    assert Intercepts(r.question[0].name, "");
    FirstMatchIs(r.question, "", 0);
  }

  /**
   * A request whose questions all miss the domain is sent upstream
   * unmodified; the client gets the encoding of the upstream's reply when the
   * exchange and the encoding both succeed, and nothing otherwise.
   */
  lemma NoMatchForwardsVerbatim(r: Msg, localIp: Addr, interceptDomain: string,
                                exchange: Msg -> Option<Msg>, pack: Msg -> Option<Wire>)
    requires forall j :: 0 <= j < |r.question| ==> !Intercepts(r.question[j].name, interceptDomain)
    ensures var out := Dispatch(r, localIp, interceptDomain, exchange, pack);
      && out.Forwarded? && out.query == r && out.upstreamReply == exchange(r)
      && out.written == (if exchange(r).Some? then pack(exchange(r).value) else None)
  {
  }

  /** A request with no questions at all is always forwarded. */
  lemma NoQuestionsForwarded(r: Msg, localIp: Addr, interceptDomain: string,
                             exchange: Msg -> Option<Msg>, pack: Msg -> Option<Wire>)
    requires r.question == []
    ensures Dispatch(r, localIp, interceptDomain, exchange, pack) ==
      Forwarded(r, exchange(r), if exchange(r).Some? then pack(exchange(r).value) else None)
  {
  }

  /** On the intercept path the upstream is never consulted: the outcome does not depend on it. */
  lemma InterceptIgnoresUpstream(r: Msg, localIp: Addr, interceptDomain: string,
                                 exchange1: Msg -> Option<Msg>, exchange2: Msg -> Option<Msg>,
                                 pack: Msg -> Option<Wire>, j: nat)
    requires j < |r.question| && Intercepts(r.question[j].name, interceptDomain)
    ensures Dispatch(r, localIp, interceptDomain, exchange1, pack)
         == Dispatch(r, localIp, interceptDomain, exchange2, pack)
  {
    assert Dispatch(r, localIp, interceptDomain, exchange1, pack).Intercepted?;
  }

  // ---------------------------------------------------------------------------
  // The locally built reply

  /**
   * Every locally built reply mirrors the request's ID, question list and
   * recursion-desired flag, sets response and recursion-available, answers
   * with opcode QUERY and rcode NOERROR and the remaining flags clear, carries
   * the request's wire buffer, and has at most one answer and no other records.
   */
  lemma InterceptReplyShape(r: Msg, localIp: Addr, interceptDomain: string,
                            exchange: Msg -> Option<Msg>, pack: Msg -> Option<Wire>)
    ensures var out := Dispatch(r, localIp, interceptDomain, exchange, pack);
      out.Intercepted? ==>
        && MirrorsRequest(r, out.reply)
        && UnsetFieldsZero(out.reply.header)
        && out.reply.data == r.data
        && |out.reply.answer| <= 1
        && out.reply.ns == [] && out.reply.extra == []
        && out.written == pack(out.reply)
  {
  }

  /**
   * The first intercepted question decides: for type A the reply holds exactly
   * one record, the lower-cased name in class IN with TTL 3600 pointing at the
   * local address.
   */
  lemma FirstMatchTypeA(r: Msg, localIp: Addr, interceptDomain: string,
                        exchange: Msg -> Option<Msg>, pack: Msg -> Option<Wire>, i: nat)
    requires i < |r.question| && Intercepts(r.question[i].name, interceptDomain)
    requires forall j :: 0 <= j < i ==> !Intercepts(r.question[j].name, interceptDomain)
    requires r.question[i].qtype == TypeA
    ensures var out := Dispatch(r, localIp, interceptDomain, exchange, pack);
      && out.Intercepted?
      && MirrorsRequest(r, out.reply)
      && out.reply.answer == [RR(Header(ToLower(r.question[i].name), ClassINET, 3600), TypeA, localIp)]
  {
    FirstMatchIs(r.question, interceptDomain, i);
  }

  /**
   * For any other type the reply has no answer at all, and the request is
   * still not forwarded.
   */
  lemma FirstMatchOtherType(r: Msg, localIp: Addr, interceptDomain: string,
                            exchange: Msg -> Option<Msg>, pack: Msg -> Option<Wire>, i: nat)
    requires i < |r.question| && Intercepts(r.question[i].name, interceptDomain)
    requires forall j :: 0 <= j < i ==> !Intercepts(r.question[j].name, interceptDomain)
    requires r.question[i].qtype != TypeA
    ensures var out := Dispatch(r, localIp, interceptDomain, exchange, pack);
      && out.Intercepted?
      && MirrorsRequest(r, out.reply)
      && out.reply.answer == []
  {
    FirstMatchIs(r.question, interceptDomain, i);
  }

  /** The first matching index is the one `FirstMatch` finds. */
  lemma FirstMatchIs(qs: seq<Question>, interceptDomain: string, i: nat)
    requires i < |qs| && Intercepts(qs[i].name, interceptDomain)
    requires forall j :: 0 <= j < i ==> !Intercepts(qs[j].name, interceptDomain)
    ensures FirstMatch(qs, interceptDomain) == Some(i)
  {
  }

  /**
   * Questions after the first intercepted one are never examined: two
   * requests that agree up to it get the same answer section.
   */
  lemma LaterQuestionsIgnored(r1: Msg, r2: Msg, localIp: Addr, interceptDomain: string,
                              exchange: Msg -> Option<Msg>, pack: Msg -> Option<Wire>, i: nat)
    requires i < |r1.question| && i < |r2.question|
    requires r1.question[..i + 1] == r2.question[..i + 1]
    requires Intercepts(r1.question[i].name, interceptDomain)
    ensures Dispatch(r1, localIp, interceptDomain, exchange, pack).Intercepted?
    ensures Dispatch(r2, localIp, interceptDomain, exchange, pack).Intercepted?
    ensures Dispatch(r1, localIp, interceptDomain, exchange, pack).reply.answer
         == Dispatch(r2, localIp, interceptDomain, exchange, pack).reply.answer
  {
    var qs1, qs2 := r1.question, r2.question;
    assert forall j :: 0 <= j <= i ==> qs1[j] == qs2[j] by {
      forall j | 0 <= j <= i ensures qs1[j] == qs2[j] {
        assert qs1[..i + 1][j] == qs2[..i + 1][j];
      }
    }
    var k1 := FirstMatch(qs1, interceptDomain);
    assert k1.Some? && k1.value <= i;
    FirstMatchIs(qs2, interceptDomain, k1.value);
  }

  /** Every answer in a locally built reply is itself for a name the proxy intercepts. */
  lemma AnswerNamesIntercepted(r: Msg, localIp: Addr, interceptDomain: string,
                               exchange: Msg -> Option<Msg>, pack: Msg -> Option<Wire>)
    ensures var out := Dispatch(r, localIp, interceptDomain, exchange, pack);
      out.Intercepted? ==>
        forall k :: 0 <= k < |out.reply.answer| ==> Intercepts(out.reply.answer[k].hdr.name, interceptDomain)
  {
    var m := FirstMatch(r.question, interceptDomain);
    if m.Some? {
      ToLowerIdempotent(r.question[m.value].name);
    }
  }

  // ---------------------------------------------------------------------------
  // What reaches the client

  /** Any failure on either path means nothing is written to the client. */
  lemma NothingWrittenOnError(r: Msg, localIp: Addr, interceptDomain: string,
                              exchange: Msg -> Option<Msg>, pack: Msg -> Option<Wire>)
    ensures var out := Dispatch(r, localIp, interceptDomain, exchange, pack);
      && (out.Intercepted? && pack(out.reply).None? ==> out.written.None?)
      && (out.Forwarded? && exchange(r).None? ==> out.written.None?)
      && (out.Forwarded? && exchange(r).Some? && pack(exchange(r).value).None? ==> out.written.None?)
  {
  }

  /**
   * Whatever is written is the encoding of the local reply, or of the
   * upstream's reply exactly as the upstream returned it; and a successful
   * encoding is always written.
   */
  lemma WrittenIsPackedReply(r: Msg, localIp: Addr, interceptDomain: string,
                             exchange: Msg -> Option<Msg>, pack: Msg -> Option<Wire>)
    ensures var out := Dispatch(r, localIp, interceptDomain, exchange, pack);
      out.written.Some? ==>
        if out.Intercepted? then pack(out.reply) == out.written
        else exchange(r).Some? && out.upstreamReply == exchange(r) && pack(exchange(r).value) == out.written
    ensures var out := Dispatch(r, localIp, interceptDomain, exchange, pack);
      && (out.Intercepted? && pack(out.reply).Some? ==> out.written == pack(out.reply))
      && (out.Forwarded? && exchange(r).Some? && pack(exchange(r).value).Some? ==>
            out.written == pack(exchange(r).value))
  {
  }

  /**
   * A one-line corollary of `Dispatch`'s contract (`upstreamReply ==
   * exchange(r)`): on the forward path the handler does not touch the reply,
   * so its ID and question list match the request's exactly when the
   * upstream exchange keeps them.
   */
  lemma ForwardedReplyMirrorsIffUpstreamDoes(r: Msg, localIp: Addr, interceptDomain: string,
                                             exchange: Msg -> Option<Msg>, pack: Msg -> Option<Wire>)
    requires forall j :: 0 <= j < |r.question| ==> !Intercepts(r.question[j].name, interceptDomain)
    requires exchange(r).Some?
    ensures var out := Dispatch(r, localIp, interceptDomain, exchange, pack);
      (out.upstreamReply.value.header.id == r.header.id && out.upstreamReply.value.question == r.question)
      <==> (exchange(r).value.header.id == r.header.id && exchange(r).value.question == r.question)
  {
    NoMatchForwardsVerbatim(r, localIp, interceptDomain, exchange, pack);
  }
}
