/**
 When does the bot say that a domain is free? (src/whois/client.py, src/whois/proxy_client.py and `get_or_fetch`
 of src/services/whois_facade.py.) Everything the outside answers is a parameter; the RDAP server is asked at
 most twice and may change its mind in between.
 */
module FreeVerdict {
  import opened Sequences
  import W = WhoisCheck

  // ---------------------------------------------------------------------------
  // What the outside answers
  // ---------------------------------------------------------------------------

  /** A WHOIS text, by what the two recognisers make of it. */
  datatype Text = Text(looksLikeError: bool, saysNotFound: bool)

  datatype RdapBody = Empty | Record | Crashing

  datatype RdapAnswer = Found(body: Option<RdapBody>) | NotFound | Unsupported | Failed

  datatype WhoisAnswer = Timeout | NoServer | NetworkError | Answered(text: Text, crashesParser: bool)

  datatype ProxySource = FromRdap | FromWhois | FromRuRelay | FromNowhere | FromElsewhere

  datatype ProxyBody = Dict(body: RdapBody) | Raw(text: Text, crashesParser: bool) | OtherBody

  /** Garbled: the status is 200, but the body is no JSON object. */
  datatype ProxyAnswer = Unreachable | Rejected | Garbled
                       | Payload(source: ProxySource, ok: bool, noData: bool, body: ProxyBody)

  datatype World = World(proxyEnabled: bool, validSyntax: bool, proxy: ProxyAnswer,
                         rdap: RdapAnswer, whois: WhoisAnswer, recheck: RdapAnswer)

  // ---------------------------------------------------------------------------
  // What the lookup answers
  // ---------------------------------------------------------------------------

  datatype Source = Rdap | Whois | ProxyRdap | ProxyWhois | ProxyWhoisRu | ProxyNone

  datatype ErrorKind = ParseError | UnsupportedTld | TimedOut | Network | Unavailable

  /** The marks are the entries of `raw_data` that the cross-check sets. */
  datatype Answer =
    | Data(registered: bool, source: Source, verified: bool, unverified: bool, contradicted: Option<Source>)
    | Error(kind: ErrorKind)

  function Plain(registered: bool, source: Source): Answer {
    Data(registered, source, false, false, None)
  }

  predicate IsFree(a: Answer) {
    a.Data? && !a.registered
  }

  predicate IsTextBased(s: Source) {
    s == Whois || s == ProxyWhois || s == ProxyWhoisRu || s == ProxyNone
  }

  /** `lookup_direct`. */
  method LookupDirect(w: World) returns (a: Answer)
    ensures IsFree(a) <==> w.validSyntax && (RdapDenies(w.rdap) || (RdapIsSilent(w.rdap) && WhoisDenies(w.whois)))
    ensures IsFree(a) ==> a == Plain(false, if RdapDenies(w.rdap) then Rdap else Whois)
    ensures a.Data? && a.registered
            <==> w.validSyntax && (w.rdap == Found(Some(Record)) || (RdapIsSilent(w.rdap) && WhoisConfirms(w.whois)))
    ensures a.Data? && a.registered ==> a == Plain(true, if w.rdap == Found(Some(Record)) then Rdap else Whois)
    ensures forall k :: a == Error(k) <==> DirectFails(w, k)
  {
    if !w.validSyntax {
      return Error(ParseError);
    }
    if w.rdap.Found? && w.rdap.body.Some? {
      if w.rdap.body.value.Crashing? {
        return Error(ParseError);
      }
      return Plain(w.rdap.body.value.Record?, Rdap);
    }
    if w.rdap.NotFound? {
      return Plain(false, Rdap);
    }
    match w.whois
    case Timeout => return Error(TimedOut);
    case NoServer => return Error(UnsupportedTld);
    case NetworkError => return Error(Network);
    case Answered(text, crashesParser) =>
      if text.looksLikeError {
        return Error(Unavailable);
      }
      if crashesParser {
        return Error(ParseError);
      }
      return Plain(!text.saysNotFound, Whois);
  }

  /** What a call comes to; `Raised` is an exception that nobody up the chain catches. */
  datatype Outcome<A> = Raised | Returned(value: A)

  /** `lookup_via_proxy` and `_parse_proxy_response`; `None` is the exception that makes the caller fall back. */
  method LookupViaProxy(w: World) returns (r: Outcome<Option<Answer>>)
    ensures r.Raised? <==> w.validSyntax && CrashesProxyClient(w.proxy)
    ensures r == Returned(None) <==> w.validSyntax && w.proxy.Unreachable?
    ensures r.Returned? && r.value.Some? && IsFree(r.value.value) <==> w.validSyntax && ProxyDenies(w.proxy)
    ensures r.Returned? && r.value.Some? && r.value.value.Data? && r.value.value.registered
            <==> w.validSyntax && ProxyConfirms(w.proxy)
    ensures r.Returned? && r.value.Some? && r.value.value.Data? ==>
      r.value.value == Plain(r.value.value.registered, ProxySourceOf(w.proxy))
    ensures forall k :: r == Returned(Some(Error(k)))
                        <==> if w.validSyntax then ProxyFails(w.proxy, k) else k == ParseError
  {
    if !w.validSyntax {
      return Returned(Some(Error(ParseError)));
    }
    match w.proxy
    case Unreachable => return Returned(None);
    case Rejected => return Returned(Some(Error(ParseError)));
    case Garbled => return Raised;
    case Payload(source, ok, noData, body) =>
      if !ok || source == FromNowhere {
        return Returned(Some(if noData then Plain(false, ProxyNone) else Error(ParseError)));
      }
      if source == FromRdap {
        if !body.Dict? {
          return Returned(Some(Error(ParseError)));
        }
        if body.body.Crashing? {
          return Raised;
        }
        return Returned(Some(Plain(body.body.Record?, ProxyRdap)));
      }
      if source == FromWhois || source == FromRuRelay {
        if !body.Raw? {
          return Returned(Some(Error(ParseError)));
        }
        if body.text.looksLikeError {
          return Returned(Some(Error(Unavailable)));
        }
        if body.crashesParser {
          return Raised;
        }
        return Returned(Some(Plain(!body.text.saysNotFound, if source == FromWhois then ProxyWhois else ProxyWhoisRu)));
      }
      return Returned(Some(Error(ParseError)));
  }

  /** `_verify_unregistered`: sets the marks on the answer, or replaces it by what the cross-check found. */
  method VerifyUnregistered(a: Answer, recheck: RdapAnswer) returns (r: Answer)
    ensures !IsFree(a) || !IsTextBased(a.source) ==> r == a
    ensures IsFree(a) && IsTextBased(a.source) ==>
      r == if recheck == Found(Some(Record)) then Data(true, Rdap, false, false, Some(a.source))
           else if RdapDenies(recheck) then a.(verified := true)
           else a.(unverified := true)
  {
    r := a;
    if a.Error? || a.registered || !IsTextBased(a.source) {
      return;
    }
    if recheck.Found? && recheck.body.Some? {
      if recheck.body.value.Crashing? {
        r := r.(unverified := true);
        return;
      }
      var parsed := Plain(recheck.body.value.Record?, Rdap);
      if parsed.registered {
        return parsed.(contradicted := Some(a.source));
      }
      r := r.(verified := true);
      return;
    }
    if recheck.NotFound? {
      r := r.(verified := true);
      return;
    }
    r := r.(unverified := true);
  }

  // ---------------------------------------------------------------------------
  // Evidence
  // ---------------------------------------------------------------------------

  /** RDAP says that there is no such domain: a 404, or an answer without content. */
  predicate RdapDenies(r: RdapAnswer) {
    r.NotFound? || r == Found(Some(Empty))
  }

  predicate RdapIsSilent(r: RdapAnswer) {
    r.Unsupported? || r.Failed? || r == Found(None)
  }

  /** A real WHOIS text, not an error page, that says the domain is not there. */
  predicate TextDenies(t: Text) {
    !t.looksLikeError && t.saysNotFound
  }

  predicate WhoisDenies(a: WhoisAnswer) {
    a.Answered? && TextDenies(a.text) && !a.crashesParser
  }

  /** A real WHOIS text that does not say so. */
  predicate TextConfirms(t: Text) {
    !t.looksLikeError && !t.saysNotFound
  }

  predicate WhoisConfirms(a: WhoisAnswer) {
    a.Answered? && TextConfirms(a.text) && !a.crashesParser
  }

  predicate ProxyDenies(p: ProxyAnswer) {
    p.Payload?
    && if !p.ok || p.source == FromNowhere then p.noData
       else match p.source
            case FromRdap => p.body == Dict(Empty)
            case FromWhois => p.body.Raw? && TextDenies(p.body.text) && !p.body.crashesParser
            case FromRuRelay => p.body.Raw? && TextDenies(p.body.text) && !p.body.crashesParser
            case FromElsewhere => false
  }

  predicate ProxyConfirms(p: ProxyAnswer) {
    p.Payload? && p.ok
    && match p.source
       case FromRdap => p.body == Dict(Record)
       case FromWhois => p.body.Raw? && TextConfirms(p.body.text) && !p.body.crashesParser
       case FromRuRelay => p.body.Raw? && TextConfirms(p.body.text) && !p.body.crashesParser
       case _ => false
  }

  /** The direct lookup ends in this error. */
  predicate DirectFails(w: World, k: ErrorKind) {
    match k
    case ParseError =>
      || !w.validSyntax || w.rdap == Found(Some(Crashing))
      || (RdapIsSilent(w.rdap) && w.whois.Answered? && !w.whois.text.looksLikeError && w.whois.crashesParser)
    case UnsupportedTld => w.validSyntax && RdapIsSilent(w.rdap) && w.whois.NoServer?
    case TimedOut => w.validSyntax && RdapIsSilent(w.rdap) && w.whois.Timeout?
    case Network => w.validSyntax && RdapIsSilent(w.rdap) && w.whois.NetworkError?
    case Unavailable => w.validSyntax && RdapIsSilent(w.rdap) && w.whois.Answered? && w.whois.text.looksLikeError
  }

  /** The proxy's answer, for a valid name, is this error. */
  predicate ProxyFails(p: ProxyAnswer, k: ErrorKind) {
    match k
    case ParseError =>
      || p.Rejected?
      || (p.Payload? && (!p.ok || p.source == FromNowhere) && !p.noData)
      || (p.Payload? && p.ok && match p.source
                                case FromRdap => !p.body.Dict?
                                case FromWhois => !p.body.Raw?
                                case FromRuRelay => !p.body.Raw?
                                case FromElsewhere => true
                                case FromNowhere => false)
    case Unavailable =>
      p.Payload? && p.ok && (p.source == FromWhois || p.source == FromRuRelay)
      && p.body.Raw? && p.body.text.looksLikeError
    case _ => false
  }

  /** Nothing catches a body that is no JSON object, or a parser that breaks its promise not to raise. */
  predicate CrashesProxyClient(p: ProxyAnswer) {
    || p.Garbled?
    || (p.Payload? && p.ok
        && match p.source
           case FromRdap => p.body == Dict(Crashing)
           case FromWhois => p.body.Raw? && !p.body.text.looksLikeError && p.body.crashesParser
           case FromRuRelay => p.body.Raw? && !p.body.text.looksLikeError && p.body.crashesParser
           case _ => false)
  }

  function ProxySourceOf(p: ProxyAnswer): Source {
    if !p.Payload? || !p.ok || p.source == FromNowhere then ProxyNone
    else match p.source
         case FromRdap => ProxyRdap
         case FromWhois => ProxyWhois
         case _ => ProxyWhoisRu
  }

  predicate UsesProxy(w: World) {
    w.proxyEnabled && !w.proxy.Unreachable?
  }

  /** An RDAP server, directly or behind the proxy, says the domain is not there. */
  predicate DeniedByRdap(w: World) {
    if UsesProxy(w) then ProxyDenies(w.proxy) && ProxySourceOf(w.proxy) == ProxyRdap else RdapDenies(w.rdap)
  }

  /** Only a text, or the proxy on its own account, says the domain is not there. */
  predicate DeniedByText(w: World) {
    if UsesProxy(w) then ProxyDenies(w.proxy) && ProxySourceOf(w.proxy) != ProxyRdap
    else RdapIsSilent(w.rdap) && WhoisDenies(w.whois)
  }

  predicate LookupRaises(w: World) {
    w.validSyntax && UsesProxy(w) && CrashesProxyClient(w.proxy)
  }

  /** A domain is called free on this evidence, and on no other. */
  predicate IsDenied(w: World) {
    w.validSyntax && (DeniedByRdap(w) || (DeniedByText(w) && w.recheck != Found(Some(Record))))
  }

  /** Somebody shows a record of the domain: RDAP, or a real text, directly or behind the proxy. */
  predicate IsConfirmed(w: World) {
    w.validSyntax && if UsesProxy(w) then ProxyConfirms(w.proxy)
                     else w.rdap == Found(Some(Record)) || (RdapIsSilent(w.rdap) && WhoisConfirms(w.whois))
  }

  /** An RDAP record contradicts the text that denies the domain. */
  predicate IsContradicted(w: World) {
    w.validSyntax && DeniedByText(w) && w.recheck == Found(Some(Record))
  }

  /** Where the first answer of a lookup comes from. */
  function SourceOf(w: World): Source {
    if UsesProxy(w) then ProxySourceOf(w.proxy) else if RdapIsSilent(w.rdap) then Whois else Rdap
  }

  /** The lookup ends in this error. */
  predicate LookupFails(w: World, k: ErrorKind) {
    if w.validSyntax && UsesProxy(w) then ProxyFails(w.proxy, k) else DirectFails(w, k)
  }

  /** What a lookup on live evidence shows. */
  ghost predicate IsLiveAnswer(w: World, a: Answer) {
    || (IsConfirmed(w) && a == Plain(true, SourceOf(w)))
    || (IsContradicted(w) && a == Data(true, Rdap, false, false, Some(SourceOf(w))))
    || (IsDenied(w) && DeniedByRdap(w) && a == Plain(false, SourceOf(w)))
    || (IsDenied(w) && DeniedByText(w)
        && a == Data(false, SourceOf(w), RdapDenies(w.recheck), !RdapDenies(w.recheck), None))
  }

  /**
   `lookup_domain` calls a domain free exactly when somebody denied it and no RDAP record contradicts a mere text.
   Failures of any kind are not evidence. A denial by text carries exactly one mark, and the mark of a verified
   one means that RDAP agreed.
   */
  method LookupDomain(w: World) returns (r: Outcome<Answer>)
    ensures r.Raised? <==> LookupRaises(w)
    ensures r.Returned? && IsFree(r.value) <==> IsDenied(w)
    ensures r.Returned? && IsFree(r.value) && DeniedByRdap(w) ==>
      !IsTextBased(r.value.source) && !r.value.verified && !r.value.unverified
    ensures r.Returned? && IsFree(r.value) && DeniedByText(w) ==>
      && IsTextBased(r.value.source)
      && r.value.verified == RdapDenies(w.recheck) && r.value.unverified == !RdapDenies(w.recheck)
    ensures w.validSyntax && DeniedByText(w) && w.recheck == Found(Some(Record)) ==>
      && r.Returned? && r.value.Data? && r.value.registered && r.value.source == Rdap
      && r.value.contradicted.Some? && IsTextBased(r.value.contradicted.value)
    ensures r.Returned? && r.value.Data? && r.value.registered <==> IsConfirmed(w) || IsContradicted(w)
    ensures r.Returned? && r.value.Data? ==> IsLiveAnswer(w, r.value)
    ensures forall k :: r == Returned(Error(k)) <==> LookupFails(w, k)
  {
    var result: Option<Answer> := None;
    if w.proxyEnabled {
      var viaProxy := LookupViaProxy(w);
      if viaProxy.Raised? {
        return Raised;
      }
      result := viaProxy.value;
    }
    if result.None? {
      var direct := LookupDirect(w);
      result := Some(direct);
    }
    var a := VerifyUnregistered(result.value, w.recheck);
    r := Returned(a);
  }

  // ---------------------------------------------------------------------------
  // The facade and its cache
  // ---------------------------------------------------------------------------

  datatype FacadeResult = Shown(data: Answer, stale: bool) | Refused(error: ErrorKind)

  /** `_is_fresh`; the window is `whois_cache_fresh_hours`, in seconds. */
  predicate IsFresh(fetchedAt: Option<int>, window: nat, now: int) {
    fetchedAt.Some? && now - fetchedAt.value <= window
  }

  /** `_cache_to_data`; a free domain and a placeholder have neither date nor registrar. */
  function CacheToData(r: W.Row): Answer {
    Plain(W.LooksRegistered(r), Rdap)
  }

  /** The cached row is shown as it is, without a mark. */
  predicate CacheAnswers(cached: Option<W.Row>, force: bool, window: nat, now: int) {
    !force && cached.Some? && IsFresh(cached.value.fetchedAt, window, now) && W.LooksRegistered(cached.value)
  }

  /** The row can stand in for a live answer that failed. */
  predicate CanStandIn(cached: Option<W.Row>) {
    cached.Some? && cached.value.fetchedAt.Some? && cached.value.expires.Some?
  }

  /**
   The user is told that a domain is free only on live evidence, never from the cache and never as stale data. Live
   evidence of either kind is shown as it is; failing that, the row as stale, when it can stand in; failing that, the
   error of the lookup.
   */
  method GetOrFetch(w: World, cached: Option<W.Row>, force: bool, window: nat, now: int)
      returns (r: Outcome<FacadeResult>)
    ensures CacheAnswers(cached, force, window, now) ==> r == Returned(Shown(Plain(true, Rdap), false))
    ensures r.Raised? <==> !CacheAnswers(cached, force, window, now) && LookupRaises(w)
    ensures r.Returned? && r.value.Shown? && IsFree(r.value.data)
            <==> !CacheAnswers(cached, force, window, now) && IsDenied(w)
    ensures r.Returned? && r.value.Shown? && IsFree(r.value.data) ==>
      !r.value.stale
      && (if DeniedByRdap(w) then !r.value.data.verified && !r.value.data.unverified
          else r.value.data.verified == RdapDenies(w.recheck) && r.value.data.unverified == !r.value.data.verified)
    ensures r.Returned? && r.value.Shown? && r.value.stale ==>
      r.value.data.Data? && r.value.data.registered && cached.Some? && cached.value.expires.Some?
    ensures r.Returned? && r.value.Shown? && !r.value.stale
            <==> CacheAnswers(cached, force, window, now) || IsDenied(w) || IsConfirmed(w) || IsContradicted(w)
    ensures !CacheAnswers(cached, force, window, now) && r.Returned? && r.value.Shown? && !r.value.stale ==>
      IsLiveAnswer(w, r.value.data)
    ensures r.Returned? && r.value.Shown? && r.value.stale
            <==> !CacheAnswers(cached, force, window, now) && CanStandIn(cached) && exists k :: LookupFails(w, k)
    ensures r.Returned? && r.value.Shown? && r.value.stale ==> r.value.data == Plain(true, Rdap)
    ensures forall k :: r == Returned(Refused(k))
                        <==> !CacheAnswers(cached, force, window, now) && !CanStandIn(cached) && LookupFails(w, k)
  {
    if !force && cached.Some? && IsFresh(cached.value.fetchedAt, window, now) {
      var data := CacheToData(cached.value);
      if data.registered {
        return Returned(Shown(data, false));
      }
    }
    var live := LookupDomain(w);
    if live.Raised? {
      return Raised;
    }
    if live.value.Data? {
      return Returned(Shown(live.value, false));
    }
    if cached.Some? && cached.value.fetchedAt.Some? && cached.value.expires.Some? {
      return Returned(Shown(CacheToData(cached.value), true));
    }
    r := Returned(Refused(live.value.kind));
  }
}
