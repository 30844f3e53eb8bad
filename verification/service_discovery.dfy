/** The local bookkeeping of the IBM Bluemix Service Discovery client
    (`IBM::Bluemix::ServiceDiscovery`): the class-level tables of registered
    services and of heartbeat threads, and the operations that read and
    change them. Every HTTP call is replaced by a `Transport` parameter that
    gives the outcome of that call. */
module Bluemix {
  import opened RubyHash

  /** URL of the production discovery endpoint (list and discover). */
  const ServiceDiscoveryEndpoint: string := "https://servicediscovery.ng.bluemix.net/api/v1/services"
  /** URL of the production registry endpoint (register). */
  const ServiceRegistryEndpoint: string := "https://servicediscovery.ng.bluemix.net/api/v1/instances"
  /** TTL sent with a registration when the caller gives none. */
  const DefaultTtl: nat := 60

  datatype Option<T> = None | Some(value: T)

  /** A parsed response body. `payload` stands for the whole JSON document;
      `selfLink` and `heartbeatLink` are what `body['links']['self']` and
      `body['links']['heartbeat']` yield, None when either lookup fails or
      gives nil. */
  datatype Body = Body(payload: string, selfLink: Option<string>, heartbeatLink: Option<string>)

  datatype Endpoint = Endpoint(kind: string, value: string)

  /** The registration document that `register` posts. */
  datatype Registration = Registration(
    serviceName: string,
    endpoint: Endpoint,
    status: string,
    ttl: nat,
    metadata: map<string, string>)

  datatype Request =
    | HttpPost(url: string, registration: Registration)
    | HttpPut(url: string)
    | HttpDelete(url: string)
    | HttpGet(url: string)

  /** What one HTTP call gives back: an exception raised by the HTTP library
      (network failure, the 5 second timeout) or a status code and a body. */
  datatype Response = TransportError | Http(code: int, body: Body)

  /** The remote side, as seen by one run of an operation: the answer it
      gives to each request it answers. A request it does not answer fails
      the way a refused connection or the timeout does. */
  datatype Transport = Transport(answers: map<Request, Response>) {
    function Send(q: Request): (response: Response)
      ensures q !in answers ==> response.TransportError?
    {
      if q in answers then answers[q] else TransportError
    }
  }

  /** The Ruby exceptions the client lets escape. */
  datatype Exception = NoMethodError(selector: string) | NameError(identifier: string)

  /** Raised by `response.code` when the request raised and was rescued,
      leaving `response` nil. */
  const NilResponse: Exception := NoMethodError("code")

  /** Raised by `options[:ttl] * 0.75` when no `:ttl` was given. */
  const NilTtl: Exception := NoMethodError("*")

  /** A Ruby method call either returns a value or raises. */
  datatype Outcome<T> = Returned(value: T) | Raised(exception: Exception)

  /** The `options` hash of `register`; `heartbeat` is whether
      `options[:heartbeat] == true`. */
  datatype Options = Options(ttl: Option<nat>, heartbeat: bool)

  /** A heartbeat thread: its identity, the service it renews and the
      number of seconds it sleeps between renewals. */
  datatype Thread = Thread(id: nat, service: string, interval: int)

  /** What `info` reports: the keys of both tables, in insertion order. */
  datatype Snapshot = Snapshot(services: seq<string>, heartbeats: seq<string>)

  /** `(ttl * 0.75).round`: the integer nearest to three quarters of the TTL,
      halves rounded up (Ruby rounds halves away from zero). The product is
      exact in floating point below 2^53 / 3, and the rounded value agrees
      with this one for every TTL below (2^54 + 2) / 3. */
  function HeartbeatInterval(ttl: nat): (interval: nat)
    ensures 4 * interval - 2 <= 3 * ttl < 4 * interval + 2
  {
    (3 * ttl + 2) / 4
  }

  /** With a TTL of at least three seconds the heartbeat thread sleeps at
      least a second and less than the TTL. Since it sleeps after each PUT,
      the registration survives when a PUT takes less than the slack
      `ttl - HeartbeatInterval(ttl)`, which is at least a quarter of the TTL
      less half a second. */
  lemma HeartbeatBeforeExpiry(ttl: nat)
    requires ttl >= 3
    ensures 0 < HeartbeatInterval(ttl) < ttl
    ensures 4 * (ttl - HeartbeatInterval(ttl)) >= ttl - 2
  {
  }

  /** The POST that `register` issues: type "tcp", status "UP", TTL 60 by default. */
  function RegisterRequest(name: string, host: string, options: Options, meta: map<string, string>): Request {
    var ttl := if options.ttl.Some? then options.ttl.value else DefaultTtl;
    HttpPost(ServiceRegistryEndpoint, Registration(name, Endpoint("tcp", host), "UP", ttl, meta))
  }

  /** The mapping of a heartbeat status code to the result of `renew`. */
  function Renewed(code: int): bool {
    code == 200
  }

  /** The DELETE request `delete` issues for a stored record: none when the
      record has no self link (the lookup raises before the call). */
  function DeleteRequests(record: Body): seq<Request> {
    if record.selfLink.Some? then [HttpDelete(record.selfLink.value)] else []
  }

  /** Whether `delete` on a stored record ends with `response` nil and so
      raises: no self link, or the DELETE itself raised. */
  predicate DeleteRaises(record: Body, transport: Transport) {
    record.selfLink.None? || transport.Send(HttpDelete(record.selfLink.value)).TransportError?
  }

  /** Every key of the snapshot has a stored record. */
  ghost predicate Covers(keys: seq<string>, records: map<string, Body>) {
    forall k :: k in keys ==> k in records
  }

  /** Every entry of `a` is also an entry of `b`, with the same value. */
  ghost predicate SubMap(a: map<string, Body>, b: map<string, Body>) {
    forall k :: k in a ==> k in b && a[k] == b[k]
  }

  /** The progress of `reset`'s delete loop: how many keys it deleted, and the
      requests it issued. */
  datatype Sweep = Sweep(deleted: nat, requests: seq<Request>)

  /** `keys.each { |k| delete(k) }` from position `from` on, over a snapshot
      of the stored records: it deletes keys in order until the first whose
      delete raises. */
  function DeleteSweep(keys: seq<string>, from: nat, records: map<string, Body>, transport: Transport): (s: Sweep)
    requires from <= |keys|
    requires Covers(keys, records)
    ensures from + s.deleted <= |keys|
    decreases |keys| - from
  {
    if from == |keys| then Sweep(0, [])
    else
      var record := records[keys[from]];
      if DeleteRaises(record, transport) then Sweep(0, DeleteRequests(record))
      else
        var rest := DeleteSweep(keys, from + 1, records, transport);
        Sweep(rest.deleted + 1, DeleteRequests(record) + rest.requests)
  }

  /** The sweep stops exactly at the first key whose delete raises, and
      deletes every key when none does. */
  lemma {:induction false} SweepStopsAtFirstRaise(keys: seq<string>, from: nat, records: map<string, Body>, transport: Transport)
    requires from <= |keys|
    requires Covers(keys, records)
    ensures var s := DeleteSweep(keys, from, records, transport);
      && (forall j :: from <= j < from + s.deleted ==> !DeleteRaises(records[keys[j]], transport))
      && (from + s.deleted < |keys| ==> DeleteRaises(records[keys[from + s.deleted]], transport))
    decreases |keys| - from
  {
    if from < |keys| && !DeleteRaises(records[keys[from]], transport) {
      SweepStopsAtFirstRaise(keys, from + 1, records, transport);
    }
  }

  /** When every stored record has a self link and its DELETE gets an
      answer, whatever its status, the sweep deletes every key. */
  lemma SweepCompletes(keys: seq<string>, records: map<string, Body>, transport: Transport)
    requires Covers(keys, records)
    requires forall k :: k in keys ==> records[k].selfLink.Some?
    requires forall k :: k in keys ==> HttpDelete(records[k].selfLink.value) in transport.answers
    requires forall q :: q in transport.answers ==> transport.answers[q].Http?
    ensures DeleteSweep(keys, 0, records, transport).deleted == |keys|
  {
    SweepStopsAtFirstRaise(keys, 0, records, transport);
  }

  /** The requests `delete` issues for the first n keys, in order. */
  function DeleteRequestsUpTo(keys: seq<string>, n: nat, records: map<string, Body>): seq<Request>
    requires n <= |keys|
    requires Covers(keys, records)
  {
    if n == 0 then [] else DeleteRequestsUpTo(keys, n - 1, records) + DeleteRequests(records[keys[n - 1]])
  }

  /** None of the first n deletes raises. */
  ghost predicate NoneRaise(keys: seq<string>, n: nat, records: map<string, Body>, transport: Transport)
    requires n <= |keys|
    requires Covers(keys, records)
  {
    n == 0 || (NoneRaise(keys, n - 1, records, transport) && !DeleteRaises(records[keys[n - 1]], transport))
  }

  /** Once the first n deletes have gone through without raising, the sweep
      is those n deletes followed by the sweep from position n. */
  lemma {:induction false} SweepAfter(keys: seq<string>, n: nat, records: map<string, Body>, transport: Transport)
    requires n <= |keys|
    requires Covers(keys, records)
    requires NoneRaise(keys, n, records, transport)
    ensures var rest := DeleteSweep(keys, n, records, transport);
      DeleteSweep(keys, 0, records, transport)
        == Sweep(n + rest.deleted, DeleteRequestsUpTo(keys, n, records) + rest.requests)
  {
    var rest := DeleteSweep(keys, n, records, transport);
    if n == 0 {
      assert [] + rest.requests == rest.requests;
    } else {
      SweepAfter(keys, n - 1, records, transport);
      var record := records[keys[n - 1]];
      assert DeleteSweep(keys, n - 1, records, transport) == Sweep(rest.deleted + 1, DeleteRequests(record) + rest.requests);
      AppendAssociates(DeleteRequestsUpTo(keys, n - 1, records), DeleteRequests(record), rest.requests);
    }
  }

  /** When the deletes before position n go through and the one at n raises,
      the sweep deletes n keys and issues their requests and that one's. */
  lemma SweepEndsAt(keys: seq<string>, n: nat, records: map<string, Body>, transport: Transport)
    requires n < |keys|
    requires Covers(keys, records)
    requires NoneRaise(keys, n, records, transport)
    requires DeleteRaises(records[keys[n]], transport)
    ensures var sweep := DeleteSweep(keys, 0, records, transport);
      && sweep.deleted == n
      && sweep.requests == DeleteRequestsUpTo(keys, n, records) + DeleteRequests(records[keys[n]])
  {
    SweepAfter(keys, n, records, transport);
  }

  /** When no delete raises, the sweep deletes every key and issues every
      request. */
  lemma SweepEndsAll(keys: seq<string>, records: map<string, Body>, transport: Transport)
    requires Covers(keys, records)
    requires NoneRaise(keys, |keys|, records, transport)
    ensures DeleteSweep(keys, 0, records, transport) == Sweep(|keys|, DeleteRequestsUpTo(keys, |keys|, records))
  {
    SweepAfter(keys, |keys|, records, transport);
    assert DeleteRequestsUpTo(keys, |keys|, records) + [] == DeleteRequestsUpTo(keys, |keys|, records);
  }

  /** What is left of the stored records after deleting the first i keys of
      a snapshot: the keys from position i on, with their snapshot values. */
  ghost predicate RemainingFrom(h: Hash<Body>, keys: seq<string>, i: nat, records: map<string, Body>)
    requires i <= |keys|
  {
    && h.Wf()
    && h.keys == keys[i..]
    && SubMap(h.entries, records)
  }

  /** Deleting the key at position i moves what is left on to position i + 1. */
  lemma RemainingAfterDelete(h: Hash<Body>, keys: seq<string>, i: nat, records: map<string, Body>)
    requires i < |keys| && RemainingFrom(h, keys, i, records)
    ensures keys[i] in h.entries && h.entries[keys[i]] == records[keys[i]]
    ensures RemainingFrom(h.Delete(keys[i]), keys, i + 1, records)
  {
    assert keys[i] == h.keys[0];
    OmitAt(h.keys, 0);
    assert h.keys[1..] == keys[i + 1..];
  }

  /** The class-level state of `ServiceDiscovery`: `@@services` and
      `@@heartbeats`, shared by every instance; one object stands for both.
      `running` is the set of heartbeat threads not killed, and `requests`
      the HTTP requests the foreground calls issued so far. */
  class ServiceDiscovery {
    /** `@@services`: service name to the last response body received for it. */
    var services: Hash<Body>
    /** `@@heartbeats`: service name to its heartbeat thread (possibly killed). */
    var heartbeats: Hash<Thread>
    /** The heartbeat threads that have not been killed. */
    var running: set<Thread>
    /** The identity the next thread gets. */
    var nextThread: nat
    /** Every request the foreground calls issued, in order (not the PUTs
        of the heartbeat threads). */
    ghost var requests: seq<Request>

    /** Both tables are well-formed hashes and the heartbeat threads are
        consistent with their table. */
    ghost predicate Valid()
      reads this
    {
      services.Wf() && HeartbeatsValid()
    }

    /** Every table entry is a thread for its own key, and every thread not
        killed is the table entry of its service: no service ever has two
        heartbeat threads left unkilled, and a replaced thread is always
        killed. */
    ghost predicate HeartbeatsValid()
      reads this`heartbeats, this`running, this`nextThread
    {
      && heartbeats.Wf()
      && (forall n :: n in heartbeats.entries ==>
            heartbeats.entries[n].service == n && heartbeats.entries[n].id < nextThread)
      && (forall t :: t in running ==> t.service in heartbeats.entries && heartbeats.entries[t.service] == t)
    }

    /** The tables as the class body creates them: both empty. */
    constructor ()
      ensures Valid()
      ensures services == Empty() && heartbeats == Empty()
      ensures running == {} && requests == []
    {
      services := Empty();
      heartbeats := Empty();
      running := {};
      nextThread := 0;
      requests := [];
    }

    /** `register(name, host, options, meta)`: posts the registration; on a
        response of any status stores its body under `name` and returns it,
        and with `heartbeat: true` (re)starts the heartbeat thread at
        `HeartbeatInterval(ttl)`; when the POST raises, returns nil and
        changes nothing. */
    method Register(name: string, host: string, options: Options, meta: map<string, string>, transport: Transport)
      returns (r: Outcome<Option<Body>>)
      requires Valid()
      modifies this
      ensures Valid()
      ensures requests == old(requests) + [RegisterRequest(name, host, options, meta)]
      ensures var response := transport.Send(RegisterRequest(name, host, options, meta));
        response.TransportError? ==>
          && r == Returned(None)
          && services == old(services)
          && heartbeats == old(heartbeats) && running == old(running)
      ensures var response := transport.Send(RegisterRequest(name, host, options, meta));
        response.Http? ==>
          && services == old(services).Store(name, response.body)
          && r == (if options.heartbeat && options.ttl.None? then Raised(NilTtl) else Returned(Some(response.body)))
      ensures var response := transport.Send(RegisterRequest(name, host, options, meta));
        if response.Http? && options.heartbeat && options.ttl.Some? then
          var t := Thread(old(nextThread), name, HeartbeatInterval(options.ttl.value));
          && heartbeats == old(heartbeats).Store(name, t)
          && running == (set u | u in old(running) && u.service != name) + {t}
        else
          heartbeats == old(heartbeats) && running == old(running)
    {
      var request := RegisterRequest(name, host, options, meta);
      requests := requests + [request];
      var response := transport.Send(request);
      if response.TransportError? {
        return Returned(None);
      }
      services := services.Store(name, response.body);
      if options.heartbeat {
        if options.ttl.None? {
          return Raised(NilTtl);
        }
        var _ := Heartbeat(name, HeartbeatInterval(options.ttl.value));
      }
      r := Returned(Some(services.entries[name]));
    }

    /** `renew(name)`: false without a request for an unknown name; otherwise
        PUTs the heartbeat link and returns whether the status was 200 (410
        Gone included among the failures). The stored record is never touched. */
    method Renew(name: string, transport: Transport) returns (r: Outcome<bool>)
      requires Valid()
      modifies this`requests
      ensures Valid()
      ensures services == old(services) && heartbeats == old(heartbeats) && running == old(running)
      ensures name !in services.entries ==> r == Returned(false) && requests == old(requests)
      ensures name in services.entries && services.entries[name].heartbeatLink.None? ==>
        r == Raised(NilResponse) && requests == old(requests)
      ensures name in services.entries && services.entries[name].heartbeatLink.Some? ==>
        var put := HttpPut(services.entries[name].heartbeatLink.value);
        && requests == old(requests) + [put]
        && r == match transport.Send(put)
                case TransportError => Raised(NilResponse)
                case Http(code, _) => Returned(Renewed(code))
    {
      if name !in services.entries {
        return Returned(false);
      }
      var service := services.entries[name];
      if service.heartbeatLink.None? {
        return Raised(NilResponse);
      }
      var put := HttpPut(service.heartbeatLink.value);
      requests := requests + [put];
      var response := transport.Send(put);
      if response.TransportError? {
        return Raised(NilResponse);
      }
      r := Returned(Renewed(response.code));
    }

    /** `heartbeat(name, interval)`: kills the thread of `name`, if any, and
        stores a new one; afterwards `name` has exactly one thread not
        killed, the new one, and every other service keeps its thread. */
    method Heartbeat(name: string, interval: int) returns (t: Thread)
      requires Valid()
      modifies this`heartbeats, this`running, this`nextThread
      ensures Valid()
      ensures t == Thread(old(nextThread), name, interval)
      ensures nextThread == old(nextThread) + 1
      ensures heartbeats == old(heartbeats).Store(name, t)
      ensures running == (set u | u in old(running) && u.service != name) + {t}
    {
      if name in heartbeats.entries {
        running := running - {heartbeats.entries[name]};
      }
      t := Thread(nextThread, name, interval);
      nextThread := nextThread + 1;
      heartbeats := heartbeats.Store(name, t);
      running := running + {t};
    }

    /** `unheartbeat(name)`: kills the thread of `name` and returns it; the
        table keeps its entry. */
    method Unheartbeat(name: string) returns (t: Thread)
      requires Valid()
      requires name in heartbeats.entries
      modifies this`running
      ensures Valid()
      ensures t == heartbeats.entries[name]
      ensures heartbeats == old(heartbeats)
      ensures running == set u | u in old(running) && u.service != name
    {
      t := heartbeats.entries[name];
      running := running - {t};
    }

    /** `delete(name)`: false without a request for an unknown name;
        otherwise DELETEs the self link and, whatever the status, drops `name`
        from `@@services` and returns true. The heartbeat table and threads
        are left alone. */
    method Delete(name: string, transport: Transport) returns (r: Outcome<bool>)
      requires services.Wf()
      modifies this`services, this`requests
      ensures services.Wf()
      ensures heartbeats == old(heartbeats) && running == old(running)
      ensures name !in old(services.entries) ==>
        r == Returned(false) && services == old(services) && requests == old(requests)
      ensures name in old(services.entries) ==>
        var record := old(services.entries[name]);
        && requests == old(requests) + DeleteRequests(record)
        && if DeleteRaises(record, transport) then
             r == Raised(NilResponse) && services == old(services)
           else
             r == Returned(true) && services == old(services).Delete(name)
    {
      if name !in services.entries {
        return Returned(false);
      }
      var service := services.entries[name];
      if service.selfLink.None? {
        return Raised(NilResponse);
      }
      var request := HttpDelete(service.selfLink.value);
      requests := requests + [request];
      var response := transport.Send(request);
      if response.TransportError? {
        return Raised(NilResponse);
      }
      services := services.Delete(name);
      r := Returned(true);
    }

    /** The first loop of `reset`: `@@heartbeats.keys.each { |k| unheartbeat(k) }`.
        Every heartbeat thread is dead afterwards; the table keeps its keys. */
    method UnheartbeatAll()
      requires Valid()
      modifies this`running
      ensures Valid()
      ensures running == {}
      ensures heartbeats == old(heartbeats)
    {
      var names := heartbeats.keys;
      var j := 0;
      while j < |names|
        invariant 0 <= j <= |names|
        invariant Valid()
        invariant forall u :: u in running <==> u in old(running) && u.service !in names[..j]
      {
        assert names[j] in names;
        var _ := Unheartbeat(names[j]);
        assert names[..j + 1] == names[..j] + [names[j]];
        j := j + 1;
      }
      assert names[..j] == names;
    }

    /** The second loop of `reset`: `@@services.keys.each { |k| delete(k) }`.
        The services are deleted in insertion order until one delete raises;
        that exception escapes and the services from that one on remain. */
    method DeleteAll(transport: Transport) returns (r: Outcome<bool>)
      requires services.Wf()
      modifies this`services, this`requests
      ensures services.Wf()
      ensures var sweep := DeleteSweep(old(services.keys), 0, old(services.entries), transport);
        && requests == old(requests) + sweep.requests
        && services.keys == old(services.keys)[sweep.deleted..]
        && SubMap(services.entries, old(services.entries))
        && r == (if sweep.deleted == |old(services.keys)| then Returned(true) else Raised(NilResponse))
    {
      var keys := services.keys;
      ghost var records := services.entries;
      var i := 0;
      while i < |keys|
        invariant 0 <= i <= |keys|
        invariant Covers(keys, records)
        invariant RemainingFrom(services, keys, i, records)
        invariant requests == old(requests) + DeleteRequestsUpTo(keys, i, records)
        invariant NoneRaise(keys, i, records, transport)
      {
        var k := keys[i];
        RemainingAfterDelete(services, keys, i, records);
        ghost var record := records[k];
        var outcome := Delete(k, transport);
        AppendAssociates(old(requests), DeleteRequestsUpTo(keys, i, records), DeleteRequests(record));
        if outcome.Raised? {
          SweepEndsAt(keys, i, records, transport);
          return Raised(outcome.exception);
        }
        i := i + 1;
      }
      SweepEndsAll(keys, records, transport);
      r := Returned(true);
    }

    /** `reset`: kills every heartbeat thread (the table keeps its keys),
        then deletes the services in insertion order. Returns true and leaves
        `@@services` empty unless some delete raises; then the exception
        escapes and the services from that one on remain. */
    method Reset(transport: Transport) returns (r: Outcome<bool>)
      requires Valid()
      modifies this`running, this`services, this`requests
      ensures Valid()
      ensures running == {}
      ensures heartbeats == old(heartbeats)
      ensures var sweep := DeleteSweep(old(services.keys), 0, old(services.entries), transport);
        && requests == old(requests) + sweep.requests
        && services.keys == old(services.keys)[sweep.deleted..]
        && SubMap(services.entries, old(services.entries))
        && r == (if sweep.deleted == |old(services.keys)| then Returned(true) else Raised(NilResponse))
      ensures r == Returned(true) <==> services.entries == map[]
    {
      UnheartbeatAll();
      r := DeleteAll(transport);
      if services.keys != [] {
        assert services.keys[0] in services.entries;
      }
    }

    /** `info`, as its documentation describes it: the keys of both tables. */
    method Info() returns (snapshot: Snapshot)
      requires Valid()
      ensures snapshot.services == services.keys && snapshot.heartbeats == heartbeats.keys
      ensures Distinct(snapshot.services) && Distinct(snapshot.heartbeats)
      ensures forall n :: n in snapshot.services <==> n in services.entries
      ensures forall n :: n in snapshot.heartbeats <==> n in heartbeats.entries
    {
      snapshot := Snapshot(services.keys, heartbeats.keys);
    }

    /** `info` as written: after reading `@@services.keys` it evaluates the
        bare name `heartbeats`, which no local variable or method defines. */
    method InfoAsWritten() returns (r: Outcome<Snapshot>)
      ensures r == Raised(NameError("heartbeats"))
    {
      r := Raised(NameError("heartbeats"));
    }

    /** `list`: GETs the discovery endpoint and returns the body whatever the
        status; local tables are untouched. */
    method List(transport: Transport) returns (r: Outcome<Body>)
      modifies this`requests
      ensures services == old(services) && heartbeats == old(heartbeats) && running == old(running)
      ensures requests == old(requests) + [HttpGet(ServiceDiscoveryEndpoint)]
      ensures r == match transport.Send(HttpGet(ServiceDiscoveryEndpoint))
                   case TransportError => Raised(NilResponse)
                   case Http(_, body) => Returned(body)
    {
      var request := HttpGet(ServiceDiscoveryEndpoint);
      requests := requests + [request];
      var response := transport.Send(request);
      if response.TransportError? {
        return Raised(NilResponse);
      }
      r := Returned(response.body);
    }

    /** `discover(name)`: GETs the discovery endpoint for `name` and returns
        the body whatever the status; local tables are untouched. */
    method Discover(name: string, transport: Transport) returns (r: Outcome<Body>)
      modifies this`requests
      ensures services == old(services) && heartbeats == old(heartbeats) && running == old(running)
      ensures requests == old(requests) + [HttpGet(ServiceDiscoveryEndpoint + "/" + name)]
      ensures r == match transport.Send(HttpGet(ServiceDiscoveryEndpoint + "/" + name))
                   case TransportError => Raised(NilResponse)
                   case Http(_, body) => Returned(body)
    {
      var request := HttpGet(ServiceDiscoveryEndpoint + "/" + name);
      requests := requests + [request];
      var response := transport.Send(request);
      if response.TransportError? {
        return Raised(NilResponse);
      }
      r := Returned(response.body);
    }
  }
}
