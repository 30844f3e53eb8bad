# IBM Bluemix Service Discovery client: local bookkeeping

This project models the local registration bookkeeping of the Ruby client
`IBM::Bluemix::ServiceDiscovery`. The client keeps two class-level hashes:

- `@@services` maps a service name to the last response body received for it.
- `@@heartbeats` maps a service name to the thread that renews it.

`register`, `renew`, `heartbeat`, `unheartbeat`, `delete`, `reset` and `info`
read and change these hashes. Each HTTP call is replaced by a `Transport`
value: the answers the remote side gives during one operation. A request
that has no answer fails, as a refused connection or the timeout would.
A ghost log of the requests that the foreground calls issue lets the
contracts say when no request is made. The PUTs of the heartbeat threads are
not in it.

Two modules:

- `RubyHash` (`ruby_hash.dfy`): a Ruby `Hash` with string keys. It keeps its
  entries and the insertion order of `keys`. It supports `h[k] = v`
  (`Hash.Store`) and `h.delete k` (`Hash.Delete`).
- `Bluemix` (`service_discovery.dfy`): the requests, the responses, the Ruby
  exceptions that escape, the heartbeat-interval arithmetic, and the class
  `ServiceDiscovery`. One object of that class stands for the class-level
  state that every Ruby instance shares.

Ruby behaviour the model keeps:

- A rescued HTTP exception leaves `response` nil. The next `response.code`
  then raises `NoMethodError`, which escapes. The model returns it as
  `Raised(NilResponse)`.
- In `register`, `heartbeat: true` without `:ttl` raises `NoMethodError` on
  `nil * 0.75`. The model returns `Raised(NilTtl)`. By then the body is
  already stored.
- `heartbeat` kills the previous thread of the name before it starts a new
  one. `running` is the set of threads not killed. The class invariant says
  every thread not killed is the table entry of its own service, so no
  service ever has two heartbeat threads left unkilled.
- `reset` deletes in insertion order. When a delete raises, the services
  from that key on remain.

Where the code and its documentation disagree, the model follows the code:

- The interval is `(ttl * 0.75).round`, not the "30%" of the doc comment on
  `register`. For a natural TTL that is `(3 * ttl + 2) / 4`.
- `delete` returns true whatever the status code. It raises only when the
  request itself raised. It does not stop the heartbeat thread.
- `renew` raises, rather than returning false, when the PUT raised.
- `reset` kills the threads but keeps every key of `@@heartbeats`. It stops
  at the first delete that raises, rather than carrying on.
- `heartbeat` and `unheartbeat` are documented as returning a Boolean. They
  return the new thread and the killed thread, and so does the model.
- `info` is modelled as the read of both key lists that its comment
  describes. The code as written raises (see Findings). The heartbeat keys
  it reports include those of killed threads.

## Model

| member | source | states |
|---|---|---|
| `RubyHash.Hash.Store` | lib/ibm/bluemix/service_discovery.rb:106 | `h[k] = v` keeps the hash well formed, maps `k` to `v`, keeps every other entry, appends a new key at the end of `keys` and leaves an existing key in place |
| `RubyHash.Hash.Delete` | lib/ibm/bluemix/service_discovery.rb:261 | `h.delete k` keeps the hash well formed, removes exactly `k`, keeps the other keys in their order, and changes nothing when `k` is absent |
| `RubyHash.Hash.StoreThenDelete` | lib/ibm/bluemix/service_discovery.rb:106 | storing a name that was not in the hash and then deleting it gives back the same hash, key order included |
| `RubyHash.OmitAt` | lib/ibm/bluemix/service_discovery.rb:261 | deleting the key at position i of a repeat-free key list closes the gap and keeps every other key in its order |
| `RubyHash.OmitMembers` | lib/ibm/bluemix/service_discovery.rb:261 | after a delete, a name is listed exactly when it was listed before and is not the deleted one |
| `RubyHash.OmitDistinct` | lib/ibm/bluemix/service_discovery.rb:261 | a delete never makes a key appear twice in `keys` |
| `RubyHash.Empty` | lib/ibm/bluemix/service_discovery.rb:22-25 | `{}` is a well-formed hash with no keys and no entries |
| `Bluemix.HeartbeatInterval` | lib/ibm/bluemix/service_discovery.rb:127-129 | the interval is the integer nearest to three quarters of the TTL, halves rounded up |
| `Bluemix.HeartbeatBeforeExpiry` | lib/ibm/bluemix/service_discovery.rb:128 | from a TTL of 3 seconds on, the heartbeat thread sleeps at least a second and less than the TTL, and the slack left for each PUT, `ttl - interval`, is at least a quarter of the TTL less half a second |
| `Bluemix.DeleteSweep` | lib/ibm/bluemix/service_discovery.rb:286-289 | the delete loop of `reset` never deletes more keys than it was given |
| `Bluemix.SweepStopsAtFirstRaise` | lib/ibm/bluemix/service_discovery.rb:286-289 | the delete loop deletes every key before the first whose delete raises, and stops there |
| `Bluemix.SweepCompletes` | lib/ibm/bluemix/service_discovery.rb:279-292 | when every record has a self link and each DELETE gets an answer of any status, the loop deletes every key |
| `Bluemix.SweepAfter` | lib/ibm/bluemix/service_discovery.rb:286-289 | after n deletes that did not raise, the loop is those n deletes and their requests, followed by the loop from position n |
| `Bluemix.SweepEndsAt` | lib/ibm/bluemix/service_discovery.rb:286-289 | when the delete at position n is the first to raise, the loop has deleted n keys and issued their requests and that one's |
| `Bluemix.SweepEndsAll` | lib/ibm/bluemix/service_discovery.rb:286-291 | when no delete raises, the loop deletes every key and issues every request |
| `Bluemix.RemainingAfterDelete` | lib/ibm/bluemix/service_discovery.rb:261 | deleting the first remaining key of the snapshot leaves exactly the keys after it, with their snapshot values |
| `Bluemix.ServiceDiscovery.constructor` | lib/ibm/bluemix/service_discovery.rb:22-25 | both tables start empty, with no heartbeat thread and no request issued |
| `Bluemix.ServiceDiscovery.Register` | lib/ibm/bluemix/service_discovery.rb:77-133 | posts the registration, with TTL 60 by default. If the POST raises: returns nil and changes nothing. Otherwise: stores the body under the name whatever the status and returns it. With `heartbeat: true` and a TTL: replaces the name's thread by one at `HeartbeatInterval(ttl)`. With `heartbeat: true` and no TTL: raises after storing |
| `Bluemix.ServiceDiscovery.Renew` | lib/ibm/bluemix/service_discovery.rb:148-173 | for an unknown name, false with no request. Without a heartbeat link, raises with no request. Otherwise PUTs the heartbeat link and returns true exactly on 200 (410 Gone gives false), or raises when the PUT raised. The tables are never changed |
| `Bluemix.ServiceDiscovery.Heartbeat` | lib/ibm/bluemix/service_discovery.rb:190-210 | kills the name's previous thread, stores and returns a new one with the given interval, and leaves exactly one thread not killed for the name; other services keep theirs |
| `Bluemix.ServiceDiscovery.Unheartbeat` | lib/ibm/bluemix/service_discovery.rb:225-227 | kills and returns the name's thread; the table keeps its entry |
| `Bluemix.ServiceDiscovery.Delete` | lib/ibm/bluemix/service_discovery.rb:242-263 | for an unknown name, false with nothing changed and no request. Otherwise DELETEs the self link. Whatever the status, it removes exactly that name and returns true. It raises, leaving the tables unchanged, when there is no self link or the DELETE raised. The heartbeat table and threads are untouched |
| `Bluemix.ServiceDiscovery.UnheartbeatAll` | lib/ibm/bluemix/service_discovery.rb:282-284 | every heartbeat thread is dead afterwards and the heartbeat table is unchanged |
| `Bluemix.ServiceDiscovery.DeleteAll` | lib/ibm/bluemix/service_discovery.rb:286-289 | deletes the services in insertion order, as `DeleteSweep` says. It issues exactly the sweep's requests and leaves the keys from the first raising one on, with their values unchanged. It returns true when all were deleted, and raises otherwise |
| `Bluemix.ServiceDiscovery.Reset` | lib/ibm/bluemix/service_discovery.rb:279-292 | kills every thread and keeps the heartbeat table. Then it deletes the services as `DeleteSweep` says. It returns true exactly when `@@services` ends empty |
| `Bluemix.ServiceDiscovery.Info` | lib/ibm/bluemix/service_discovery.rb:294-310 | the intended read: the keys of both tables in insertion order, each without repeats, listing exactly the stored names |
| `Bluemix.ServiceDiscovery.InfoAsWritten` | lib/ibm/bluemix/service_discovery.rb:308-310 | as written, `info` raises `NameError` on the undefined name `heartbeats` |
| `Bluemix.ServiceDiscovery.List` | lib/ibm/bluemix/service_discovery.rb:325-342 | GETs the discovery endpoint and returns the body whatever the status, or raises when the GET raised; the tables are unchanged |
| `Bluemix.ServiceDiscovery.Discover` | lib/ibm/bluemix/service_discovery.rb:371-402 | GETs the endpoint for the name and returns the body whatever the status, or raises when the GET raised; the tables are unchanged |

## Left out

- The HTTP library is not part of this model: the default headers, the bearer token, the 5-second timeout (lib/ibm/bluemix/service_discovery.rb:45-54) and the wire format. Each call's result is an answer in the `Transport` value, or a failure when it has none.
- JSON encoding and parsing are foreign code. A response body is a `Body`: an opaque payload plus the `links.self` and `links.heartbeat` lookups, each `None` when the lookup fails.
- The logger (lib/ibm/bluemix/service_discovery.rb:28-36) has no effect on the state.
- Thread execution: the `renew`-then-`sleep` loop of a heartbeat thread is concurrent code. Only the table entry and whether the thread was killed are modelled. A thread also ends, with nothing to rescue the exception, as soon as its `renew` raises (no heartbeat link, or a PUT that raised); `running` does not track that, so a thread in it is one not killed, not necessarily one still renewing. Whether a PUT finishes within the slack `HeartbeatBeforeExpiry` gives (it may take up to the 5-second timeout) is not modelled either.
- Floating point: `(ttl * 0.75).round` is replaced by its integer value. The two agree for every TTL below (2^54 + 2) / 3, about 6·10^15; from there on, round-half-to-even in the product makes them differ for some TTLs.
- The `Transport` value gives one answer per distinct request. Two identical requests within one operation (in `reset`, two records that share a self link) cannot get different answers.
- The default `interval = 60` of `heartbeat` is not modelled: `Heartbeat` always takes the interval as an argument, as `register` passes it.
- `Options`: `heartbeat` stands for `options[:heartbeat] == true`, and `ttl` for an integer `:ttl` or none. Other Ruby values of these options are not modelled.
- `Bluemix.ServiceDiscovery.Unheartbeat`: requires the name to be in `@@heartbeats`. What `Thread.kill nil` does belongs to the Ruby runtime. `reset` only calls it on present names.
- `Bluemix.ServiceDiscovery.Delete`: a record whose `links` has no `self` is modelled as raising without issuing a request. `Unirest.delete nil` belongs to the HTTP library.
- Sharing of the class variables between Ruby instances and subclasses: one object stands for the shared state.
- spec/ibm/bluemix/service_discovery_spec.rb and example/example.rb drive a live service and hold no logic of their own.

## Findings

| source | as written | input that shows it | evidently intended | confidence | as-written member | corrected member |
|---|---|---|---|---|---|---|
| lib/ibm/bluemix/service_discovery.rb:309 | `info` reads `heartbeats.keys`, and no method or local variable named `heartbeats` exists | any call of `info`, for example on the empty initial state | `@@heartbeats.keys`, the names with a heartbeat entry, as the comment at lines 294-304 describes | not executed | `Bluemix.ServiceDiscovery.InfoAsWritten` | `Bluemix.ServiceDiscovery.Info` |
