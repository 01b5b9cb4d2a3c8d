/**
 * The per-query dispatcher `handleDns`: answer queries for the intercept
 * domain locally, forward everything else to the fixed upstream resolver and
 * relay its reply.
 *
 * The two may-fail library steps are parameters:
 *   - `exchange` is the round trip to the upstream resolver (`None`: transport
 *     error, timeout or cancellation);
 *   - `pack` encodes a message for the client (`None`: encoding error).
 */
module Proxy {
  import opened Wrappers
  import opened Strings
  import opened Dns

  /** Time-to-live of every synthetic A record, in seconds. */
  const AnswerTTL: uint32 := 3600

  /**
   * What handling one request did. `written` is what reached the client:
   * `None` means nothing was written.
   *   - Intercepted: `reply` was built locally; nothing was sent upstream.
   *   - Forwarded: `query` was sent upstream, which answered `upstreamReply`
   *     (`None` when the exchange failed).
   */
  datatype Outcome =
    | Intercepted(reply: Msg, written: Option<Wire>)
    | Forwarded(query: Msg, upstreamReply: Option<Msg>, written: Option<Wire>)

  /**
   * The classification of one question: its lower-cased name ends with the
   * domain as configured. Only a domain without upper-case letters can ever
   * match, and the empty domain matches every name.
   */
  predicate Intercepts(name: string, interceptDomain: string)
    ensures Intercepts(name, interceptDomain) ==> |interceptDomain| <= |name| && IsLower(interceptDomain)
    ensures interceptDomain == [] ==> Intercepts(name, interceptDomain)
  {
    HasSuffix(ToLower(name), interceptDomain)
  }

  /** The index of the first intercepted question, if there is one. */
  function FirstMatch(qs: seq<Question>, interceptDomain: string): (m: Option<nat>)
    ensures m.Some? ==>
      && m.value < |qs|
      && Intercepts(qs[m.value].name, interceptDomain)
      && forall j :: 0 <= j < m.value ==> !Intercepts(qs[j].name, interceptDomain)
    ensures m.None? ==> forall j :: 0 <= j < |qs| ==> !Intercepts(qs[j].name, interceptDomain)
  {
    if qs == [] then None
    else if Intercepts(qs[0].name, interceptDomain) then Some(0)
    else match FirstMatch(qs[1..], interceptDomain)
      case None => None
      case Some(i) => Some(i + 1)
  }

  /** The header fields a reply copies from its request, and the flags it sets. */
  predicate MirrorsRequest(r: Msg, reply: Msg) {
    && reply.header.id == r.header.id
    && reply.header.response
    && reply.header.recursionAvailable
    && reply.header.recursionDesired == r.header.recursionDesired
    && reply.question == r.question
  }

  /**
   * The header fields the handler does not set, at Go's zero value: opcode
   * QUERY (0), rcode NOERROR (0), and the AA, TC, Z, AD and CD bits clear.
   */
  predicate UnsetFieldsZero(h: MsgHeader) {
    && h.opcode == 0 && h.rcode == 0
    && !h.authoritative && !h.truncated && !h.zero
    && !h.authenticatedData && !h.checkingDisabled
  }

  /** The reply skeleton: every field the handler does not set keeps Go's zero value. */
  function Skeleton(r: Msg): (res: Msg)
    ensures MirrorsRequest(r, res)
    ensures UnsetFieldsZero(res.header)
    ensures res.answer == [] && res.ns == [] && res.extra == []
    ensures res.data == r.data
  {
    Msg(
      MsgHeader(
        id := r.header.id, response := true, opcode := 0, authoritative := false,
        truncated := false, recursionDesired := r.header.recursionDesired,
        recursionAvailable := true, zero := false, authenticatedData := false,
        checkingDisabled := false, rcode := 0),
      r.question, [], [], [], r.data)
  }

  /**
   * The reply to an intercepted question `q`: the skeleton plus one synthetic
   * A record (lower-cased name, class IN, TTL 3600, the local address) when
   * `q` has type A, and no record otherwise.
   */
  function InterceptReply(r: Msg, q: Question, localIp: Addr): (reply: Msg)
    ensures MirrorsRequest(r, reply)
    ensures |reply.answer| == (if q.qtype == TypeA then 1 else 0)
    ensures forall k :: 0 <= k < |reply.answer| ==>
      reply.answer[k] == RR(Header(ToLower(q.name), ClassINET, 3600), TypeA, localIp)
  {
    var answer := if q.qtype == TypeA then [RR(Header(ToLower(q.name), ClassINET, AnswerTTL), TypeA, localIp)] else [];
    Skeleton(r).(answer := answer)
  }

  /**
   * What `handleDns` does with request `r`, as one expression. The request is
   * answered locally iff at least one of its questions is intercepted;
   * otherwise the request itself is what goes upstream.
   */
  function Dispatch(r: Msg, localIp: Addr, interceptDomain: string,
                    exchange: Msg -> Option<Msg>, pack: Msg -> Option<Wire>): (out: Outcome)
    ensures out.Intercepted?
        <==> exists j :: 0 <= j < |r.question| && Intercepts(r.question[j].name, interceptDomain)
    ensures out.Forwarded? ==> out.query == r && out.upstreamReply == exchange(r)
  {
    match FirstMatch(r.question, interceptDomain)
    case Some(i) =>
      var reply := InterceptReply(r, r.question[i], localIp);
      Intercepted(reply, pack(reply))
    case None =>
      var upstream := exchange(r);
      Forwarded(r, upstream, if upstream.Some? then pack(upstream.value) else None)
  }

  /**
   * The handler: build the skeleton, scan the questions in order, answer the
   * first intercepted one locally and stop; otherwise forward the request.
   */
  method HandleDns(r: Msg, localIp: Addr, interceptDomain: string,
                   exchange: Msg -> Option<Msg>, pack: Msg -> Option<Wire>)
    returns (out: Outcome)
    ensures out == Dispatch(r, localIp, interceptDomain, exchange, pack)
  {
    var res := Skeleton(r);
    var i := 0;
    while i < |r.question|
      invariant 0 <= i <= |r.question|
      invariant res == Skeleton(r)
      invariant forall j :: 0 <= j < i ==> !Intercepts(r.question[j].name, interceptDomain)
    {
      var q := r.question[i];
      var name := ToLower(q.name);
      if HasSuffix(name, interceptDomain) {
        if q.qtype == TypeA {
          var a := RR(Header(name, ClassINET, AnswerTTL), TypeA, localIp);
          res := res.(answer := res.answer + [a]);
        }
        assert FirstMatch(r.question, interceptDomain) == Some(i);
        assert res == InterceptReply(r, q, localIp);
        var packed := pack(res);
        if packed.None? {
          out := Intercepted(res, None);
          return;
        }
        out := Intercepted(res, packed);
        return;
      }
      i := i + 1;
    }

    var upstream := exchange(r);
    if upstream.None? {
      out := Forwarded(r, None, None);
      return;
    }
    var packed := pack(upstream.value);
    if packed.None? {
      out := Forwarded(r, upstream, None);
      return;
    }
    out := Forwarded(r, upstream, packed);
  }
}
