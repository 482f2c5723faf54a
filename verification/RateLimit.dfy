/** The tracker's per-second admission of requests and responses, and what it grants over any run. */
module RateLimit {
  import opened Prelude
  import opened Net

  const MAX_REQUESTS: nat := 2048
  const MAX_SOURCES: nat := 2048
  const MAX_PER_SOURCE: nat := 32
  const MAX_BYTES: nat := 128 * 1024

  datatype Rates = Rates(second: nat, counts: map<IpAddr, nat>, requests: nat, bytes: nat)

  const ZEROS: Bytes := [0, 0, 0, 0, 0, 0, 0, 0]

  /** IPv4-mapped addresses count as IPv4, and all of an IPv6 /64 counts as one source. */
  function Normalise(ip: IpAddr): IpAddr {
    if ip.V4? then ip
    else if ip.octets[..12] == ZEROS + [0, 0, 255, 255] then V4(ip.octets[12..])
    else V6(ip.octets[..8] + ZEROS)
  }

  function Tick(r: Rates, now: nat): Rates {
    if r.second != now then Rates(now, map[], 0, 0) else r
  }

  function CountOf(r: Rates, ip: IpAddr): nat {
    if ip in r.counts then r.counts[ip] else 0
  }

  function Admit(r: Rates, source: IpAddr, now: nat): (Rates, bool) {
    var t, ip := Tick(r, now), Normalise(source);
    if t.requests >= MAX_REQUESTS then (t, false)
    else if ip !in t.counts && |t.counts| >= MAX_SOURCES then (t, false)
    else if CountOf(t, ip) >= MAX_PER_SOURCE then (t, false)
    else (t.(counts := t.counts[ip := CountOf(t, ip) + 1], requests := t.requests + 1), true)
  }

  function Grant(r: Rates, bytes: nat): (Rates, bool) {
    if r.bytes + bytes > MAX_BYTES then (r, false) else (r.(bytes := r.bytes + bytes), true)
  }

  // ----- The invariant -----

  ghost function SumOver(counts: map<IpAddr, nat>, ips: set<IpAddr>): nat
    requires ips <= counts.Keys
  {
    if ips == {} then 0
    else
      var ip :| ip in ips;
      counts[ip] + SumOver(counts, ips - {ip})
  }

  lemma {:induction false} SumSplit(counts: map<IpAddr, nat>, ips: set<IpAddr>, ip: IpAddr)
    requires ips <= counts.Keys && ip in ips
    ensures SumOver(counts, ips) == counts[ip] + SumOver(counts, ips - {ip})
    decreases |ips|
  {
    var g :| g in ips && SumOver(counts, ips) == counts[g] + SumOver(counts, ips - {g});
    if g != ip {
      SumSplit(counts, ips - {g}, ip);
      SumSplit(counts, ips - {ip}, g);
      assert ips - {g} - {ip} == ips - {ip} - {g};
    }
  }

  lemma {:induction false} SumSame(a: map<IpAddr, nat>, b: map<IpAddr, nat>, ips: set<IpAddr>)
    requires ips <= a.Keys && ips <= b.Keys && forall ip :: ip in ips ==> a[ip] == b[ip]
    ensures SumOver(a, ips) == SumOver(b, ips)
    decreases |ips|
  {
    if ips != {} {
      var ip :| ip in ips;
      SumSplit(a, ips, ip);
      SumSplit(b, ips, ip);
      SumSame(a, b, ips - {ip});
    }
  }

  lemma {:induction false} SumIsLarge(counts: map<IpAddr, nat>, ips: set<IpAddr>)
    requires ips <= counts.Keys && forall ip :: ip in ips ==> counts[ip] >= 1
    ensures |ips| <= SumOver(counts, ips)
    decreases |ips|
  {
    if ips != {} {
      var ip :| ip in ips;
      SumSplit(counts, ips, ip);
      SumIsLarge(counts, ips - {ip});
    }
  }

  /** Requests are the sum of the counts, and every count, their sum and the bytes are within bounds. */
  ghost predicate RatesOk(r: Rates) {
    && r.requests == SumOver(r.counts, r.counts.Keys) <= MAX_REQUESTS
    && (forall ip :: ip in r.counts ==> 1 <= r.counts[ip] <= MAX_PER_SOURCE)
    && r.bytes <= MAX_BYTES
  }

  /** The check on the size of the source table never refuses anyone. */
  lemma TableNeverFills(r: Rates)
    requires RatesOk(r) && r.requests < MAX_REQUESTS
    ensures |r.counts| < MAX_SOURCES
  {
    SumIsLarge(r.counts, r.counts.Keys);
  }

  lemma CountedOnceMore(counts: map<IpAddr, nat>, ip: IpAddr, n: nat)
    requires n == if ip in counts then counts[ip] + 1 else 1
    ensures SumOver(counts[ip := n], counts[ip := n].Keys) == SumOver(counts, counts.Keys) + 1
  {
    var after := counts[ip := n];
    SumSplit(after, after.Keys, ip);
    assert after.Keys - {ip} == counts.Keys - {ip};
    SumSame(after, counts, counts.Keys - {ip});
    if ip in counts {
      SumSplit(counts, counts.Keys, ip);
    } else {
      assert counts.Keys - {ip} == counts.Keys;
    }
  }

  lemma AdmitKeepsRatesOk(r: Rates, source: IpAddr, now: nat)
    requires RatesOk(r)
    ensures RatesOk(Tick(r, now)) && RatesOk(Admit(r, source, now).0)
  {
    var t, ip := Tick(r, now), Normalise(source);
    CountedOnceMore(t.counts, ip, CountOf(t, ip) + 1);
  }

  // ----- What a run grants -----

  datatype Request = Admission(source: IpAddr, now: nat) | Response(bytes: nat)

  datatype Event = Event(request: Request, granted: bool)

  const START: Rates := Rates(0, map[], 0, 0)

  function Serve(r: Rates, q: Request): (Rates, bool) {
    match q
    case Admission(source, now) => Admit(r, source, now)
    case Response(bytes) => Grant(r, bytes)
  }

  function After(requests: seq<Request>): Rates {
    if requests == [] then START
    else Serve(After(requests[..|requests| - 1]), requests[|requests| - 1]).0
  }

  function Second(events: seq<Event>): nat {
    if events == [] then 0
    else
      var last := events[|events| - 1].request;
      if last.Admission? then last.now else Second(events[..|events| - 1])
  }

  /** The events since the clock last changed. */
  function Current(events: seq<Event>): seq<Event> {
    if events == [] then []
    else
      var earlier, last := events[..|events| - 1], events[|events| - 1];
      (if last.request.Admission? && last.request.now != Second(earlier) then [] else Current(earlier)) + [last]
  }

  predicate Counts(e: Event) {
    e.granted && e.request.Admission?
  }

  function Admitted(events: seq<Event>): nat {
    if events == [] then 0
    else Admitted(events[..|events| - 1]) + if Counts(events[|events| - 1]) then 1 else 0
  }

  function AdmittedFrom(events: seq<Event>, ip: IpAddr): nat {
    if events == [] then 0
    else
      var last := events[|events| - 1];
      AdmittedFrom(events[..|events| - 1], ip) + if Counts(last) && Normalise(last.request.source) == ip then 1 else 0
  }

  function BytesGranted(events: seq<Event>): nat {
    if events == [] then 0
    else
      var last := events[|events| - 1];
      BytesGranted(events[..|events| - 1]) + if last.granted && last.request.Response? then last.request.bytes else 0
  }

  function Events(requests: seq<Request>): seq<Event> {
    if requests == [] then []
    else
      var earlier, last := requests[..|requests| - 1], requests[|requests| - 1];
      Events(earlier) + [Event(last, Serve(After(earlier), last).1)]
  }

  /** The state holds what was granted since the clock last changed. */
  ghost predicate Tracks(r: Rates, second: nat, current: seq<Event>) {
    && r.second == second && r.requests == Admitted(current) && r.bytes == BytesGranted(current)
    && forall ip :: CountOf(r, ip) == AdmittedFrom(current, ip)
  }

  /** The events that still count when a request arrives: none if it moves the clock. */
  function Standing(events: seq<Event>, q: Request): seq<Event> {
    if q.Admission? && q.now != Second(events) then [] else Current(events)
  }

  lemma LastEvent(events: seq<Event>, e: Event, ip: IpAddr)
    ensures Admitted(events + [e]) == Admitted(events) + if Counts(e) then 1 else 0
    ensures AdmittedFrom(events + [e], ip)
         == AdmittedFrom(events, ip) + if Counts(e) && Normalise(e.request.source) == ip then 1 else 0
    ensures BytesGranted(events + [e])
         == BytesGranted(events) + if e.granted && e.request.Response? then e.request.bytes else 0
  {
    assert (events + [e])[..|events|] == events;
  }

  lemma AdmitTracks(r: Rates, source: IpAddr, now: nat, standing: seq<Event>)
    requires RatesOk(r) && Tracks(Tick(r, now), now, standing)
    ensures var (t, granted) := Admit(r, source, now);
      && RatesOk(t) && Tracks(t, now, standing + [Event(Admission(source, now), granted)])
      && (granted <==> Admitted(standing) < MAX_REQUESTS && AdmittedFrom(standing, Normalise(source)) < MAX_PER_SOURCE)
  {
    var (t, granted) := Admit(r, source, now);
    var e := Event(Admission(source, now), granted);
    AdmitKeepsRatesOk(r, source, now);
    if Tick(r, now).requests < MAX_REQUESTS {
      TableNeverFills(Tick(r, now));
    }
    forall ip
      ensures CountOf(t, ip) == AdmittedFrom(standing + [e], ip)
    {
      assert CountOf(Tick(r, now), ip) == AdmittedFrom(standing, ip);
      LastEvent(standing, e, ip);
    }
    LastEvent(standing, e, source);
  }

  lemma GrantTracks(r: Rates, bytes: nat, standing: seq<Event>)
    requires RatesOk(r) && Tracks(r, r.second, standing)
    ensures var (t, granted) := Grant(r, bytes);
      && RatesOk(t) && Tracks(t, r.second, standing + [Event(Response(bytes), granted)])
      && (granted <==> BytesGranted(standing) + bytes <= MAX_BYTES)
  {
    var (t, granted) := Grant(r, bytes);
    var e := Event(Response(bytes), granted);
    forall ip
      ensures CountOf(t, ip) == AdmittedFrom(standing + [e], ip)
    {
      assert CountOf(r, ip) == AdmittedFrom(standing, ip);
      LastEvent(standing, e, ip);
    }
    LastEvent(standing, e, V4([0, 0, 0, 0]));
  }

  lemma {:induction false} RunTracks(requests: seq<Request>)
    ensures RatesOk(After(requests)) && Tracks(After(requests), Second(Events(requests)), Current(Events(requests)))
  {
    if requests != [] {
      var earlier, last := requests[..|requests| - 1], requests[|requests| - 1];
      var events := Events(earlier);
      RunTracks(earlier);
      assert Events(requests)[..|events|] == events;
      match last
      case Admission(source, now) => AdmitTracks(After(earlier), source, now, Standing(events, last));
      case Response(bytes) => GrantTracks(After(earlier), bytes, Current(events));
    }
  }

  /**
   Over any run a request is admitted exactly when fewer than 2048 requests in all, and fewer than 32 from
   its source, were admitted since the clock last changed.
   */
  lemma AdmissionIsExact(requests: seq<Request>, source: IpAddr, now: nat)
    ensures var standing := Standing(Events(requests), Admission(source, now));
      Admit(After(requests), source, now).1
      <==> Admitted(standing) < 2048 && AdmittedFrom(standing, Normalise(source)) < 32
  {
    RunTracks(requests);
    AdmitTracks(After(requests), source, now, Standing(Events(requests), Admission(source, now)));
  }

  /** A response is granted exactly when it fits with what was granted since the clock last changed. */
  lemma GrantIsExact(requests: seq<Request>, bytes: nat)
    ensures Grant(After(requests), bytes).1 <==> BytesGranted(Current(Events(requests))) + bytes <= 131_072
  {
    RunTracks(requests);
  }

  /** So no second ever sees more than 2048 requests, 32 from one source, or 128 KiB of responses. */
  lemma LimitsHold(requests: seq<Request>, ip: IpAddr)
    ensures var current := Current(Events(requests));
      Admitted(current) <= 2048 && AdmittedFrom(current, ip) <= 32 && BytesGranted(current) <= 131_072
  {
    RunTracks(requests);
    assert CountOf(After(requests), ip) == AdmittedFrom(Current(Events(requests)), ip);
  }

  /** An IPv4-mapped address shares the count of the plain IPv4 address. */
  lemma MappedIsPlain(a: IpAddr, mapped: IpAddr)
    requires a.V4? && mapped == V6(ZEROS + [0, 0, 255, 255] + a.octets)
    ensures Normalise(mapped) == Normalise(a)
  {
    assert mapped.octets[..12] == ZEROS + [0, 0, 255, 255] && mapped.octets[12..] == a.octets;
  }

  predicate IsMapped(a: IpAddr) {
    a.V6? && a.octets[..12] == [0, 0, 0, 0, 0, 0, 0, 0, 0, 0, 255, 255]
  }

  /** Two IPv6 sources share a count exactly when they share a /64, or are the same IPv4-mapped address. */
  lemma SharedSource(a: IpAddr, b: IpAddr)
    requires a.V6? && b.V6?
    ensures Normalise(a) == Normalise(b) <==> if IsMapped(a) || IsMapped(b) then a == b else a.octets[..8] == b.octets[..8]
  {
    assert a.octets == a.octets[..12] + a.octets[12..] && b.octets == b.octets[..12] + b.octets[12..];
    if Normalise(a).V6? && Normalise(b).V6? {
      assert Normalise(a).octets[..8] == a.octets[..8] && Normalise(b).octets[..8] == b.octets[..8];
    }
  }
}
