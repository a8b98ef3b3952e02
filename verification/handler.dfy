/** `ReceiveMailHandler.handle_RCPT`: recipient admission, and the
    envelope it builds up over one transaction. */
module Handler {

  import opened Results
  import opened Text
  import opened Config
  import opened Routing

  /** The part of an inbound session the relay reads. */
  datatype Session = Session(authenticated: bool)

  /** The envelope of one inbound transaction. */
  datatype Envelope = Envelope(mailFrom: string, rcptTos: seq<string>, content: seq<byte>)

  datatype RcptReply = NotAuthenticated | NotRelaying | RcptAccepted

  /** The SMTP status line returned for a `RCPT TO`. */
  function RcptReplyText(reply: RcptReply): (text: string)
    ensures |text| > 4 && text[3] == ' '
    ensures text[..3] == (if reply.RcptAccepted? then "250" else "550")
  {
    match reply
    case NotAuthenticated => "550 not authenticated"
    case NotRelaying => "550 not relaying to that domain"
    case RcptAccepted => "250 OK"
  }

  /** Python truthiness of an optional byte string. */
  predicate Truthy(v: Option<seq<byte>>)
  {
    v.Some? && |v.value| > 0
  }

  /** `AUTH_USER or AUTH_PASSWORD`: relay credentials are configured. */
  predicate AuthRequired(creds: Credentials)
  {
    Truthy(creds.user) || Truthy(creds.password)
  }

  /** The session may not relay: credentials are configured and it has
      not authenticated. */
  predicate Refused(creds: Credentials, session: Session)
  {
    AuthRequired(creds) && !session.authenticated
  }

  /** `handle_RCPT`: the reply, and the envelope afterwards. The session
      check comes before routing; only an accepted address is appended. */
  function HandleRcpt(creds: Credentials, table: seq<Server>, m: Matcher, session: Session,
                      envelope: Envelope, address: string): (r: (RcptReply, Envelope))
    ensures r.0 == NotAuthenticated <==> Refused(creds, session)
    ensures r.0 == NotRelaying <==> !Refused(creds, session) && !Routable(table, m, address)
    ensures r.0 == RcptAccepted <==> !Refused(creds, session) && Routable(table, m, address)
    ensures r.0 == RcptAccepted ==>
      r.1 == envelope.(rcptTos := envelope.rcptTos + [address])
    ensures r.0 != RcptAccepted ==> r.1 == envelope
  {
    if AuthRequired(creds) && !session.authenticated then (NotAuthenticated, envelope)
    else if FindServer(table, m, address).None? then (NotRelaying, envelope)
    else (RcptAccepted, envelope.(rcptTos := envelope.rcptTos + [address]))
  }

  /** The envelope after the client offers `offered`, one `RCPT TO` each,
      in order, within one session. */
  function OfferAll(creds: Credentials, table: seq<Server>, m: Matcher, session: Session,
                    envelope: Envelope, offered: seq<string>): Envelope
    decreases |offered|
  {
    if |offered| == 0 then envelope
    else
      var before := OfferAll(creds, table, m, session, envelope, offered[..|offered| - 1]);
      HandleRcpt(creds, table, m, session, before, offered[|offered| - 1]).1
  }

  /** The routable addresses of `offered`, in their original order. */
  function RoutableOnly(table: seq<Server>, m: Matcher, offered: seq<string>): (r: seq<string>)
    ensures AllRoutable(table, m, r)
    ensures |r| <= |offered|
    ensures multiset(r) <= multiset(offered)
    ensures forall a {:trigger multiset(r)[a]} ::
      multiset(r)[a] == if Routable(table, m, a) then multiset(offered)[a] else 0
    decreases |offered|
  {
    if |offered| == 0 then []
    else
      var init := offered[..|offered| - 1];
      var last := offered[|offered| - 1];
      assert offered == init + [last];
      RoutableOnly(table, m, init) + (if Routable(table, m, last) then [last] else [])
  }

  /** No routable offer is dropped. */
  lemma RoutableOffersKept(table: seq<Server>, m: Matcher, offered: seq<string>)
    ensures forall j :: 0 <= j < |offered| && Routable(table, m, offered[j]) ==>
      offered[j] in RoutableOnly(table, m, offered)
  {
  }

  lemma RoutableOnlySnoc(table: seq<Server>, m: Matcher, offered: seq<string>)
    requires |offered| > 0
    ensures var last := offered[|offered| - 1];
      RoutableOnly(table, m, offered) ==
        RoutableOnly(table, m, offered[..|offered| - 1]) + (if Routable(table, m, last) then [last] else [])
  {
  }

  /** Over a whole transaction, the envelope gains exactly the routable
      offered addresses, in offer order and with repeats, and nothing
      else changes; a refused session gains none at all. */
  lemma {:induction false} OfferAllAppendsRoutable(creds: Credentials, table: seq<Server>, m: Matcher,
                                                  session: Session, envelope: Envelope, offered: seq<string>)
    ensures OfferAll(creds, table, m, session, envelope, offered) ==
      envelope.(rcptTos := envelope.rcptTos +
        (if Refused(creds, session) then [] else RoutableOnly(table, m, offered)))
    decreases |offered|
  {
    if |offered| > 0 {
      var init := offered[..|offered| - 1];
      OfferAllAppendsRoutable(creds, table, m, session, envelope, init);
      if !Refused(creds, session) {
        var last := offered[|offered| - 1];
        var tail := if Routable(table, m, last) then [last] else [];
        RoutableOnlySnoc(table, m, offered);
        assert envelope.rcptTos + RoutableOnly(table, m, init) + tail
            == envelope.rcptTos + (RoutableOnly(table, m, init) + tail);
      }
    }
  }

  /** Every recipient `handle_DATA` sees was resolvable when admitted, so
      the batching loop never meets an address without a destination. */
  lemma AdmittedAreRoutable(creds: Credentials, table: seq<Server>, m: Matcher,
                            session: Session, offered: seq<string>, mailFrom: string, content: seq<byte>)
    ensures AllRoutable(table, m, OfferAll(creds, table, m, session, Envelope(mailFrom, [], content), offered).rcptTos)
  {
    OfferAllAppendsRoutable(creds, table, m, session, Envelope(mailFrom, [], content), offered);
  }
}
