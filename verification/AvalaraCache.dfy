/**
 The tax-quote cache in front of the Avalara client: one call alone, and any interleaving of calls over
 one breaker with Redis failing at any time. A call that misses the cache posts through the retrying
 client, so it may be refused, and it may reach the remote several times.

 The cache key is a digest of the keyed inputs and is taken to be injective, so the inputs stand for
 it. Times are integer microseconds.
 */
module AvalaraCache {
  import opened Wrappers
  import opened CircuitBreakers
  import opened BreakerRuns
  import opened IntegrationClients
  import Http = ConcurrentRequests

  const TTL := 3600 * MICROS_PER_SECOND

  /** The inputs the key covers: everything but the transaction code and the commit flag. */
  type Inputs = string

  /** A JSON object; an empty one is falsy. */
  type Doc = map<string, string>

  datatype TaxCall = TaxCall(inputs: Inputs, code: Option<string>, commit: bool)

  datatype Entry = Entry(doc: Doc, storedAt: int)

  /** Redis serves an entry until its time to live has run out. */
  predicate Serves(cache: map<Inputs, Entry>, key: Inputs, now: int) {
    key in cache && now < cache[key].storedAt + TTL
  }

  /** What a read gives when Redis answers and the entry is not empty. */
  predicate Hits(cache: map<Inputs, Entry>, call: TaxCall, redisUp: bool, now: int) {
    !call.commit && redisUp && Serves(cache, call.inputs, now) && cache[call.inputs].doc != map[]
  }

  /** Any other status raises; `body` is None when the response does not parse as a transaction. */
  function Answer(result: Result, body: Option<Doc>): Option<Doc> {
    if result == Returned(200) || result == Returned(201) then body else None
  }

  // ---- One call alone ----

  /** A post is a request whose response gives a result if its status is 200 or 201 and its body parses. */
  ghost predicate Posted(cfg: Config, maxAttempts: int, before: Snapshot, after: Snapshot, now: int, replies: seq<Reply>,
                         bodies: seq<Option<Doc>>, sent: nat, result: Option<Doc>)
    requires |bodies| == |replies| >= AttemptLimit(maxAttempts)
  {
    exists response ::
      && Requested(cfg, maxAttempts, before, after, now, replies, sent, response)
      && result == if (response == Returned(200) || response == Returned(201)) && 0 < sent <= |bodies| then bodies[sent - 1]
                   else None
  }

  class AvalaraClient {
    const http: IntegrationClient
    var cache: map<Inputs, Entry>

    constructor (http: IntegrationClient)
      ensures this.http == http && cache == map[]
    {
      this.http := http;
      cache := map[];
    }

    /** A failing read is a miss. */
    method GetCached(key: Inputs, redisUp: bool, now: int) returns (doc: Option<Doc>)
      ensures doc == if redisUp && Serves(cache, key, now) then Some(cache[key].doc) else None
    {
      doc := None;
      if redisUp {
        if key in cache && now < cache[key].storedAt + TTL {
          doc := Some(cache[key].doc);
        }
      }
    }

    /** A failing write is ignored. */
    method SetCached(key: Inputs, doc: Doc, redisUp: bool, now: int)
      modifies this
      ensures cache == if redisUp then old(cache)[key := Entry(doc, now)] else old(cache)
    {
      if redisUp {
        cache := cache[key := Entry(doc, now)];
      }
    }

    /** The post and the check of its status; a body that does not parse gives no result. */
    method Post(now: int, replies: seq<Reply>, bodies: seq<Option<Doc>>) returns (result: Option<Doc>, sent: nat)
      requires http.circuit.Valid()
      requires |bodies| == |replies| >= AttemptLimit(http.maxAttempts)
      modifies http.circuit
      ensures http.circuit.Valid()
      ensures Posted(http.circuit.config, http.maxAttempts, old(http.circuit.View()), http.circuit.View(), now, replies, bodies,
                     sent, result)
    {
      var response;
      response, sent := http.Request(now, replies);
      if response != Returned(201) && response != Returned(200) {
        return None, sent;
      }
      result := bodies[sent - 1];
    }

    /** `replies` and `bodies` are the remote's answers to as many attempts as could be made; `sent` were made. */
    method CreateTransaction(call: TaxCall, readUp: bool, now: int, replies: seq<Reply>, bodies: seq<Option<Doc>>,
                             writeUp: bool, writeAt: int)
      returns (result: Option<Doc>, sent: nat)
      requires http.circuit.Valid()
      requires |bodies| == |replies| >= AttemptLimit(http.maxAttempts)
      modifies this, http.circuit
      ensures http.circuit.Valid()
      ensures Hits(old(cache), call, readUp, now) ==>
                && sent == 0 && result == Some(old(cache)[call.inputs].doc)
                && cache == old(cache) && http.circuit.View() == old(http.circuit.View())
      ensures !Hits(old(cache), call, readUp, now) ==>
                && Posted(http.circuit.config, http.maxAttempts, old(http.circuit.View()), http.circuit.View(), now, replies,
                          bodies, sent, result)
                && cache == if !call.commit && result.Some? && writeUp
                            then old(cache)[call.inputs := Entry(result.value, writeAt)] else old(cache)
    {
      if !call.commit {
        var cached := GetCached(call.inputs, readUp, now);
        if cached.Some? && cached.value != map[] {
          return cached, 0;
        }
      }
      result, sent := Post(now, replies, bodies);
      if result.Some? && !call.commit {
        SetCached(call.inputs, result.value, writeUp, writeAt);
      }
    }
  }

  // ---- Any interleaving ----

  datatype Status =
    | Posting
    | Storing(doc: Doc, answeredAt: int)
    | Fresh(doc: Doc, answeredAt: int)
    | Hit(doc: Doc, readAt: int)
    | Failed

  datatype Task = Task(call: TaxCall, status: Status)

  /** The remote answered one attempt of a call. */
  datatype RemoteEvent = RemoteEvent(id: nat, call: TaxCall, reply: Reply, body: Option<Doc>)

  /** `cacheUsers` lists the calls that read or wrote the cache. */
  datatype System = System(
    clock: int,
    cache: map<Inputs, Entry>,
    tasks: map<nat, Task>,
    http: Http.System,
    remote: seq<RemoteEvent>,
    cacheUsers: seq<nat>)

  datatype Move =
    | Begin(id: nat, call: TaxCall, redisUp: bool, now: int)
    | Receive(id: nat, outcome: Outcome, body: Option<Doc>, jitter: nat, now: int)
    | Resume(id: nat, now: int)
    | Store(id: nat, redisUp: bool, now: int)

  const EMPTY := System(0, map[], map[], Http.IDLE, [], [])

  /** Where a call is, given where its post is. */
  function StatusOf(call: TaxCall, stage: Http.Stage, body: Option<Doc>, now: int): Status {
    if !stage.Ended? then Posting
    else match Answer(stage.result, body)
         case None => Failed
         case Some(doc) => if call.commit then Fresh(doc, now) else Storing(doc, now)
  }

  /** The read and the admission check, each attempt's reply, each waking from a backoff, and the write. */
  function Next(cfg: Config, policy: Http.Policy, sys: System, m: Move): System {
    match m
    case Begin(id, call, redisUp, now) =>
      if id in sys.tasks then sys
      else
        var users := sys.cacheUsers + if call.commit then [] else [id];
        if Hits(sys.cache, call, redisUp, now) then
          var hit := Hit(sys.cache[call.inputs].doc, now);
          sys.(clock := now, tasks := sys.tasks[id := Task(call, hit)], cacheUsers := users)
        else
          var http := Http.Next(cfg, policy, sys.http, Http.Begin(id, now));
          sys.(clock := now,
               tasks := sys.tasks[id := Task(call, StatusOf(call, http.requests[id].stage, None, now))],
               http := http,
               cacheUsers := users)
    case Receive(id, outcome, body, jitter, now) =>
      if id in sys.tasks && Http.Receives(sys.http, id) then
        var call, reply := sys.tasks[id].call, Reply(outcome, now);
        var http := Http.Next(cfg, policy, sys.http, Http.Receive(id, reply, jitter));
        sys.(clock := now,
             tasks := sys.tasks[id := Task(call, StatusOf(call, http.requests[id].stage, body, now))],
             http := http,
             remote := sys.remote + [RemoteEvent(id, call, reply, body)])
      else sys
    case Resume(id, now) =>
      sys.(clock := now, http := Http.Next(cfg, policy, sys.http, Http.Resume(id, now)))
    case Store(id, redisUp, now) =>
      if id in sys.tasks && sys.tasks[id].status.Storing? then
        var t := sys.tasks[id];
        sys.(clock := now,
             cache := if redisUp then sys.cache[t.call.inputs := Entry(t.status.doc, now)] else sys.cache,
             tasks := sys.tasks[id := Task(t.call, Fresh(t.status.doc, t.status.answeredAt))],
             cacheUsers := sys.cacheUsers + [id])
      else sys
  }

  function Moves(cfg: Config, policy: Http.Policy, ms: seq<Move>): System {
    if ms == [] then EMPTY else Next(cfg, policy, Moves(cfg, policy, ms[..|ms| - 1]), ms[|ms| - 1])
  }

  /** No move reads an earlier clock than the one before it. */
  ghost predicate Monotone(ms: seq<Move>) {
    && (forall i, j :: 0 <= i < j < |ms| ==> ms[i].now <= ms[j].now)
    && (forall i :: 0 <= i < |ms| ==> 0 <= ms[i].now)
  }

  lemma MonotonePrefix(ms: seq<Move>, k: nat)
    requires Monotone(ms) && k <= |ms|
    ensures Monotone(ms[..k])
  {
  }

  // ---- Where a result comes from ----

  /** The replies to the attempts of one call, in order. */
  function RepliesTo(remote: seq<RemoteEvent>, id: nat): seq<Reply> {
    if remote == [] then []
    else RepliesTo(remote[..|remote| - 1], id) +
         if remote[|remote| - 1].id == id then [remote[|remote| - 1].reply] else []
  }

  /** The last attempt of one call. */
  function LastAttempt(remote: seq<RemoteEvent>, id: nat): Option<RemoteEvent> {
    if remote == [] then None
    else if remote[|remote| - 1].id == id then Some(remote[|remote| - 1])
    else LastAttempt(remote[..|remote| - 1], id)
  }

  predicate Accepted(o: Outcome) {
    o == Response(200) || o == Response(201)
  }

  /** The remote's answer to the call's last attempt is `doc`. */
  ghost predicate AnsweredCall(remote: seq<RemoteEvent>, id: nat, call: TaxCall, doc: Doc, at: int) {
    var last := LastAttempt(remote, id);
    && last.Some? && last.value.id == id && last.value.call == call
    && Accepted(last.value.reply.outcome) && last.value.reply.at == at && last.value.body == Some(doc)
  }

  /** The call was refused without an attempt, or its last attempt brought no usable answer. */
  ghost predicate Unanswered(remote: seq<RemoteEvent>, id: nat, r: Http.Request) {
    var last := LastAttempt(remote, id);
    if r.stage == Http.Ended(CircuitOpen) then last == None && Http.Sends(r) == 0
    else last.Some? && (Accepted(last.value.reply.outcome) ==> last.value.body == None)
  }

  predicate Answers(e: RemoteEvent, inputs: Inputs, doc: Doc, storedAt: int) {
    && e.call.inputs == inputs && !e.call.commit
    && Accepted(e.reply.outcome) && e.body == Some(doc) && e.reply.at <= storedAt
  }

  /** The remote answered an uncommitted call on the same keyed inputs with `doc`, no later than `storedAt`. */
  ghost predicate AnsweredInputs(remote: seq<RemoteEvent>, inputs: Inputs, doc: Doc, storedAt: int) {
    exists e :: e in remote && Answers(e, inputs, doc, storedAt)
  }

  ghost predicate HitExplained(remote: seq<RemoteEvent>, t: Task)
    requires t.status.Hit?
  {
    && !t.call.commit && t.status.doc != map[]
    && exists storedAt :: storedAt <= t.status.readAt < storedAt + TTL
                          && AnsweredInputs(remote, t.call.inputs, t.status.doc, storedAt)
  }

  /** The post's attempts are the remote's replies to this call, and the call's status is theirs. */
  ghost predicate PostExplained(remote: seq<RemoteEvent>, id: nat, t: Task, r: Http.Request) {
    && r.received == RepliesTo(remote, id)
    && match t.status
       case Posting => !r.stage.Ended?
       case Storing(doc, at) => r.stage.Ended? && !t.call.commit && AnsweredCall(remote, id, t.call, doc, at)
       case Fresh(doc, at) => r.stage.Ended? && AnsweredCall(remote, id, t.call, doc, at)
       case Hit(_, _) => false
       case Failed => r.stage.Ended? && Unanswered(remote, id, r)
  }

  ghost predicate TaskExplained(sys: System, id: nat)
    requires id in sys.tasks
  {
    if sys.tasks[id].status.Hit? then
      id !in sys.http.requests && RepliesTo(sys.remote, id) == [] && HitExplained(sys.remote, sys.tasks[id])
    else
      id in sys.http.requests && PostExplained(sys.remote, id, sys.tasks[id], sys.http.requests[id])
  }

  ghost predicate EntryExplained(sys: System, key: Inputs)
    requires key in sys.cache
  {
    sys.cache[key].storedAt <= sys.clock && AnsweredInputs(sys.remote, key, sys.cache[key].doc, sys.cache[key].storedAt)
  }

  ghost predicate EntriesExplained(sys: System) {
    forall key :: key in sys.cache ==> EntryExplained(sys, key)
  }

  ghost predicate TasksExplained(sys: System) {
    forall id :: id in sys.tasks ==> TaskExplained(sys, id)
  }

  ghost predicate Known(sys: System) {
    && (forall id :: id in sys.http.requests ==> id in sys.tasks)
    && (forall e :: e in sys.remote ==> e.reply.at <= sys.clock && e.id in sys.tasks)
    && (forall id :: id in sys.cacheUsers ==> id in sys.tasks && !sys.tasks[id].call.commit)
  }

  ghost predicate Explained(cfg: Config, limit: nat, sys: System) {
    Http.Projects(cfg, limit, sys.http) && Known(sys) && EntriesExplained(sys) && TasksExplained(sys)
  }

  lemma RemoteSnoc(remote: seq<RemoteEvent>, e: RemoteEvent, id: nat)
    ensures RepliesTo(remote + [e], id) == RepliesTo(remote, id) + if e.id == id then [e.reply] else []
    ensures LastAttempt(remote + [e], id) == if e.id == id then Some(e) else LastAttempt(remote, id)
  {
    assert (remote + [e])[..|remote + [e]| - 1] == remote;
  }

  lemma {:induction false} NoReplies(remote: seq<RemoteEvent>, id: nat)
    requires forall e :: e in remote ==> e.id != id
    ensures RepliesTo(remote, id) == [] && LastAttempt(remote, id) == None
  {
    if remote != [] {
      NoReplies(remote[..|remote| - 1], id);
    }
  }

  lemma {:induction false} LastIsThere(remote: seq<RemoteEvent>, id: nat)
    ensures LastAttempt(remote, id).Some? ==> LastAttempt(remote, id).value in remote
  {
    if remote != [] {
      LastIsThere(remote[..|remote| - 1], id);
    }
  }

  lemma InputsGrow(remote: seq<RemoteEvent>, e: RemoteEvent, inputs: Inputs, doc: Doc, storedAt: int)
    requires AnsweredInputs(remote, inputs, doc, storedAt)
    ensures AnsweredInputs(remote + [e], inputs, doc, storedAt)
  {
    var f :| f in remote && Answers(f, inputs, doc, storedAt);
    assert f in remote + [e];
  }

  lemma HitGrows(remote: seq<RemoteEvent>, e: RemoteEvent, t: Task)
    requires t.status.Hit? && HitExplained(remote, t)
    ensures HitExplained(remote + [e], t)
  {
    var storedAt :| storedAt <= t.status.readAt < storedAt + TTL
                    && AnsweredInputs(remote, t.call.inputs, t.status.doc, storedAt);
    InputsGrow(remote, e, t.call.inputs, t.status.doc, storedAt);
  }

  lemma BeginExplained(cfg: Config, policy: Http.Policy, sys: System, m: Move)
    requires Explained(cfg, policy.limit, sys) && m.Begin? && sys.clock <= m.now
    ensures Explained(cfg, policy.limit, Next(cfg, policy, sys, m))
  {
    if m.id !in sys.tasks {
      NoReplies(sys.remote, m.id);
      if Hits(sys.cache, m.call, m.redisUp, m.now) {
        assert EntryExplained(sys, m.call.inputs);
        BeginHit(cfg, policy, sys, m);
      } else {
        Http.MoveProjects(cfg, policy, sys.http, Http.Begin(m.id, m.now));
        BeginPost(cfg, policy, sys, m);
      }
      BeginKnown(cfg, policy, sys, m);
    } else {
      assert Next(cfg, policy, sys, m) == sys;
    }
  }

  lemma BeginKnown(cfg: Config, policy: Http.Policy, sys: System, m: Move)
    requires Known(sys) && EntriesExplained(sys) && m.Begin? && sys.clock <= m.now && m.id !in sys.tasks
    ensures Known(Next(cfg, policy, sys, m)) && EntriesExplained(Next(cfg, policy, sys, m))
  {
    var next := Next(cfg, policy, sys, m);
    forall key | key in next.cache ensures EntryExplained(next, key) {
      assert EntryExplained(sys, key);
    }
  }

  lemma BeginHit(cfg: Config, policy: Http.Policy, sys: System, m: Move)
    requires m.Begin? && Hits(sys.cache, m.call, m.redisUp, m.now) && EntryExplained(sys, m.call.inputs)
    requires m.id !in sys.tasks && m.id !in sys.http.requests && RepliesTo(sys.remote, m.id) == []
    requires TasksExplained(sys) && sys.clock <= m.now
    ensures TasksExplained(Next(cfg, policy, sys, m))
  {
    var next := Next(cfg, policy, sys, m);
    assert HitExplained(next.remote, next.tasks[m.id]);
    forall id | id in next.tasks ensures TaskExplained(next, id) {
      if id != m.id {
        assert TaskExplained(sys, id);
      }
    }
  }

  lemma BeginPost(cfg: Config, policy: Http.Policy, sys: System, m: Move)
    requires Known(sys) && TasksExplained(sys) && m.Begin?
    requires m.id !in sys.tasks && RepliesTo(sys.remote, m.id) == [] && LastAttempt(sys.remote, m.id) == None
    requires !Hits(sys.cache, m.call, m.redisUp, m.now)
    ensures TasksExplained(Next(cfg, policy, sys, m))
  {
    var next := Next(cfg, policy, sys, m);
    forall id | id in next.tasks ensures TaskExplained(next, id) {
      if id != m.id {
        assert TaskExplained(sys, id);
      }
    }
  }

  /** The reply to one attempt explains the call it belongs to. */
  lemma ReplyExplains(policy: Http.Policy, remote: seq<RemoteEvent>, id: nat, t: Task, r: Http.Request,
                      reply: Reply, body: Option<Doc>, jitter: nat)
    requires r.stage.OnWire? && r.received == RepliesTo(remote, id)
    ensures var after := Http.Replied(policy, r, reply, jitter);
            PostExplained(remote + [RemoteEvent(id, t.call, reply, body)], id,
                          Task(t.call, StatusOf(t.call, after.stage, body, reply.at)), after)
  {
    RemoteSnoc(remote, RemoteEvent(id, t.call, reply, body), id);
  }

  lemma ReceiveExplained(cfg: Config, policy: Http.Policy, sys: System, m: Move)
    requires Explained(cfg, policy.limit, sys) && m.Receive? && sys.clock <= m.now
    ensures Explained(cfg, policy.limit, Next(cfg, policy, sys, m))
  {
    if m.id in sys.tasks && Http.Receives(sys.http, m.id) {
      Http.MoveProjects(cfg, policy, sys.http, Http.Receive(m.id, Reply(m.outcome, m.now), m.jitter));
      ReceiveTasks(cfg, policy, sys, m);
      ReceiveEntries(cfg, policy, sys, m);
      ReceiveKnown(cfg, policy, sys, m);
    } else {
      assert Next(cfg, policy, sys, m) == sys;
    }
  }

  lemma ReceiveEntries(cfg: Config, policy: Http.Policy, sys: System, m: Move)
    requires EntriesExplained(sys) && m.Receive? && sys.clock <= m.now
    requires m.id in sys.tasks && Http.Receives(sys.http, m.id)
    ensures EntriesExplained(Next(cfg, policy, sys, m))
  {
    var next := Next(cfg, policy, sys, m);
    var e := RemoteEvent(m.id, sys.tasks[m.id].call, Reply(m.outcome, m.now), m.body);
    forall key | key in next.cache ensures EntryExplained(next, key) {
      assert EntryExplained(sys, key);
      InputsGrow(sys.remote, e, key, sys.cache[key].doc, sys.cache[key].storedAt);
    }
  }

  lemma ReceiveKnown(cfg: Config, policy: Http.Policy, sys: System, m: Move)
    requires Known(sys) && m.Receive? && sys.clock <= m.now
    requires m.id in sys.tasks && Http.Receives(sys.http, m.id)
    ensures Known(Next(cfg, policy, sys, m))
  {
  }

  lemma ReceiveTasks(cfg: Config, policy: Http.Policy, sys: System, m: Move)
    requires TasksExplained(sys) && m.Receive? && m.id in sys.tasks && Http.Receives(sys.http, m.id)
    ensures TasksExplained(Next(cfg, policy, sys, m))
  {
    var next := Next(cfg, policy, sys, m);
    var reply := Reply(m.outcome, m.now);
    var e := RemoteEvent(m.id, sys.tasks[m.id].call, reply, m.body);
    assert TaskExplained(sys, m.id);
    ReplyExplains(policy, sys.remote, m.id, sys.tasks[m.id], sys.http.requests[m.id], reply, m.body, m.jitter);
    forall id | id in next.tasks ensures TaskExplained(next, id) {
      if id != m.id {
        assert TaskExplained(sys, id);
        RemoteSnoc(sys.remote, e, id);
        if sys.tasks[id].status.Hit? {
          HitGrows(sys.remote, e, sys.tasks[id]);
        }
      }
    }
  }

  lemma ResumeExplained(cfg: Config, policy: Http.Policy, sys: System, m: Move)
    requires Explained(cfg, policy.limit, sys) && m.Resume? && sys.clock <= m.now
    ensures Explained(cfg, policy.limit, Next(cfg, policy, sys, m))
  {
    var next := Next(cfg, policy, sys, m);
    Http.MoveProjects(cfg, policy, sys.http, Http.Resume(m.id, m.now));
    forall id | id in next.tasks ensures TaskExplained(next, id) {
      assert TaskExplained(sys, id);
    }
    forall key | key in next.cache ensures EntryExplained(next, key) {
      assert EntryExplained(sys, key);
    }
  }

  lemma StoreExplained(cfg: Config, policy: Http.Policy, sys: System, m: Move)
    requires Explained(cfg, policy.limit, sys) && m.Store? && sys.clock <= m.now
    ensures Explained(cfg, policy.limit, Next(cfg, policy, sys, m))
  {
    var next := Next(cfg, policy, sys, m);
    if m.id in sys.tasks && sys.tasks[m.id].status.Storing? {
      var t := sys.tasks[m.id];
      assert TaskExplained(sys, m.id);
      LastIsThere(sys.remote, m.id);
      var e := LastAttempt(sys.remote, m.id).value;
      assert e in sys.remote && Answers(e, t.call.inputs, t.status.doc, m.now);
      forall key | key in next.cache ensures EntryExplained(next, key) {
        if m.redisUp && key == t.call.inputs {
          assert AnsweredInputs(next.remote, key, t.status.doc, m.now);
        } else {
          assert EntryExplained(sys, key);
        }
      }
      forall id | id in next.tasks ensures TaskExplained(next, id) {
        assert TaskExplained(sys, id);
      }
    }
  }

  /**
   In every reachable system: a result that is not from the cache is the remote's answer to the last
   attempt of this very call; a cached one is the remote's answer to an uncommitted call on the same keyed
   inputs, stored less than 3600 s before it was read, and that call never reached the remote; a call that
   failed was refused by the breaker or its last attempt brought no usable answer; no committed call reads
   or writes the cache.
   */
  lemma {:induction false} QuotesAreGenuine(cfg: Config, policy: Http.Policy, ms: seq<Move>)
    requires Monotone(ms)
    ensures Explained(cfg, policy.limit, Moves(cfg, policy, ms))
    ensures ms != [] ==> Moves(cfg, policy, ms).clock <= ms[|ms| - 1].now
    ensures ms == [] ==> Moves(cfg, policy, ms).clock == 0
  {
    if ms == [] {
      Http.InterleavingProjects(cfg, policy, []);
    } else {
      var init, m := ms[..|ms| - 1], ms[|ms| - 1];
      MonotonePrefix(ms, |ms| - 1);
      QuotesAreGenuine(cfg, policy, init);
      var sys := Moves(cfg, policy, init);
      assert sys.clock <= m.now;
      match m
      case Begin(_, _, _, _) => BeginExplained(cfg, policy, sys, m);
      case Receive(_, _, _, _, _) => ReceiveExplained(cfg, policy, sys, m);
      case Resume(_, _) => ResumeExplained(cfg, policy, sys, m);
      case Store(_, _, _) => StoreExplained(cfg, policy, sys, m);
    }
  }

  // ---- Who reaches the remote, and how often ----

  /** Move `i` is where the call begins. */
  ghost predicate Begins(cfg: Config, policy: Http.Policy, ms: seq<Move>, i: nat) {
    i < |ms| && ms[i].Begin? && ms[i].id !in Moves(cfg, policy, ms[..i]).tasks
  }

  /** In `after` the call that began with `m` in `before` has reached the remote as that moment decided. */
  ghost predicate ReachedAsAdmitted(cfg: Config, before: System, m: Move, after: System)
    requires m.Begin?
  {
    var asks, admitted := !Hits(before.cache, m.call, m.redisUp, m.now), Admits(cfg, before.http.breaker, m.now);
    && m.id in after.tasks
    && (m.id in after.http.requests <==> asks)
    && (asks ==> (admitted <==> Http.Sends(after.http.requests[m.id]) >= 1))
    && (asks && !admitted ==> after.http.requests[m.id].stage == Http.Ended(CircuitOpen))
  }

  lemma BeginReaches(cfg: Config, policy: Http.Policy, sys: System, m: Move)
    requires Known(sys) && m.Begin? && m.id !in sys.tasks
    ensures ReachedAsAdmitted(cfg, sys, m, Next(cfg, policy, sys, m))
  {
  }

  lemma ReachKept(cfg: Config, policy: Http.Policy, before: System, m: Move, sys: System, next: Move)
    requires m.Begin? && ReachedAsAdmitted(cfg, before, m, sys)
    ensures ReachedAsAdmitted(cfg, before, m, Next(cfg, policy, sys, next))
  {
  }

  /**
   A call reaches the remote if and only if it missed the cache and the breaker admitted it at that moment,
   committed or not; and it reaches it at most as often as the attempt limit allows.
   */
  lemma RemoteReachedExactlyIfAdmitted(cfg: Config, policy: Http.Policy, ms: seq<Move>, i: nat)
    requires policy.limit >= 1 && Monotone(ms) && Begins(cfg, policy, ms, i)
    ensures ReachedAsAdmitted(cfg, Moves(cfg, policy, ms[..i]), ms[i], Moves(cfg, policy, ms))
    ensures var http := Moves(cfg, policy, ms).http;
            ms[i].id in http.requests ==> Http.Sends(http.requests[ms[i].id]) <= policy.limit
  {
    MonotonePrefix(ms, i);
    QuotesAreGenuine(cfg, policy, ms[..i]);
    ReachedSince(cfg, policy, ms, i);
    SendsWithinLimit(cfg, policy, ms, ms[i].id);
  }

  lemma {:induction false} ReachedSince(cfg: Config, policy: Http.Policy, ms: seq<Move>, i: nat)
    requires Begins(cfg, policy, ms, i) && Known(Moves(cfg, policy, ms[..i]))
    ensures ReachedAsAdmitted(cfg, Moves(cfg, policy, ms[..i]), ms[i], Moves(cfg, policy, ms))
  {
    var init := ms[..|ms| - 1];
    assert init[..i] == ms[..i];
    if i == |init| {
      BeginReaches(cfg, policy, Moves(cfg, policy, init), ms[i]);
    } else {
      ReachedSince(cfg, policy, init, i);
      ReachKept(cfg, policy, Moves(cfg, policy, ms[..i]), ms[i], Moves(cfg, policy, init), ms[|ms| - 1]);
    }
  }

  lemma SendsWithinLimit(cfg: Config, policy: Http.Policy, ms: seq<Move>, id: nat)
    requires policy.limit >= 1 && Monotone(ms)
    ensures var http := Moves(cfg, policy, ms).http;
            id in http.requests ==> Http.Sends(http.requests[id]) <= policy.limit
  {
    QuotesAreGenuine(cfg, policy, ms);
    var http := Moves(cfg, policy, ms).http;
    assert Http.ProjectsAt(policy.limit, http, id);
    if id in http.requests {
      Http.AccountAlone(policy.limit, http.requests[id], Http.EventsOf(http.history, id));
    }
  }

  /** Refused without an attempt, or sent at least once. */
  lemma PostSends(limit: nat, r: Http.Request, es: seq<Event>)
    requires limit >= 1 && Http.ActsAlone(limit, r, es)
    ensures Http.Sends(r) == 0 <==> r.stage == Http.Ended(CircuitOpen)
    ensures Http.Sends(r) <= limit
  {
    Http.AccountAlone(limit, r, es);
  }

  ghost predicate CommittedCall(limit: nat, remote: seq<RemoteEvent>, id: nat, t: Task, r: Http.Request) {
    && Http.Sends(r) <= limit && r.received == RepliesTo(remote, id)
    && (Http.Sends(r) == 0 <==> r.stage == Http.Ended(CircuitOpen))
    && match t.status
       case Posting => !r.stage.Ended?
       case Fresh(doc, at) => r.stage.Ended? && AnsweredCall(remote, id, t.call, doc, at)
       case Failed => r.stage.Ended? && Unanswered(remote, id, r)
       case Storing(_, _) => false
       case Hit(_, _) => false
  }

  /**
   A committed call never uses the cache: it is refused by the breaker without an attempt, or it reaches the
   remote between once and the attempt limit times and its result is the answer to its last attempt.
   */
  lemma CommittedCallsReachRemote(cfg: Config, policy: Http.Policy, ms: seq<Move>, id: nat)
    requires policy.limit >= 1 && Monotone(ms)
    requires id in Moves(cfg, policy, ms).tasks && Moves(cfg, policy, ms).tasks[id].call.commit
    ensures var sys := Moves(cfg, policy, ms);
            && id !in sys.cacheUsers && id in sys.http.requests
            && CommittedCall(policy.limit, sys.remote, id, sys.tasks[id], sys.http.requests[id])
  {
    QuotesAreGenuine(cfg, policy, ms);
    var sys := Moves(cfg, policy, ms);
    assert TaskExplained(sys, id);
    assert Http.ProjectsAt(policy.limit, sys.http, id);
    PostSends(policy.limit, sys.http.requests[id], Http.EventsOf(sys.http.history, id));
  }

  // ---- How long an answer is served ----

  function MovesFrom(cfg: Config, policy: Http.Policy, sys: System, ms: seq<Move>): System {
    if ms == [] then sys else Next(cfg, policy, MovesFrom(cfg, policy, sys, ms[..|ms| - 1]), ms[|ms| - 1])
  }

  lemma {:induction false} CacheKeptWithoutStores(cfg: Config, policy: Http.Policy, sys: System, ms: seq<Move>)
    requires forall i :: 0 <= i < |ms| ==> !ms[i].Store?
    ensures MovesFrom(cfg, policy, sys, ms).cache == sys.cache
    ensures forall id :: id in sys.tasks ==> id in MovesFrom(cfg, policy, sys, ms).tasks
  {
    if ms != [] {
      CacheKeptWithoutStores(cfg, policy, sys, ms[..|ms| - 1]);
    }
  }

  /** A new call is served from the cache exactly when it may be, Redis answers in time and the entry is not empty. */
  lemma BeginServed(cfg: Config, policy: Http.Policy, sys: System, m: Move)
    requires m.Begin? && m.id !in sys.tasks
    ensures var next := Next(cfg, policy, sys, m);
            && (next.tasks[m.id].status.Hit? <==>
                  && !m.call.commit && m.redisUp && m.call.inputs in sys.cache
                  && m.now < sys.cache[m.call.inputs].storedAt + 3_600_000_000 && sys.cache[m.call.inputs].doc != map[])
            && (next.tasks[m.id].status.Hit? ==> next.tasks[m.id].status == Hit(sys.cache[m.call.inputs].doc, m.now))
            && (!next.tasks[m.id].status.Hit? ==> m.id in next.http.requests)
  {
  }

  /** A write stores the answer under the call's inputs, and nothing when Redis is down. */
  lemma StoreWrites(cfg: Config, policy: Http.Policy, sys: System, id: nat, up: bool, at: int)
    requires id in sys.tasks && sys.tasks[id].status.Storing?
    ensures var next, t := Next(cfg, policy, sys, Store(id, up, at)), sys.tasks[id];
            && next.cache == (if up then sys.cache[t.call.inputs := Entry(t.status.doc, at)] else sys.cache)
            && next.tasks[id].status == Fresh(t.status.doc, t.status.answeredAt)
  {
  }

  /**
   An answer written at `storedAt` is what an uncommitted call on the same inputs gets for an hour and no longer:
   until another answer is written, it is served exactly when Redis is up, less than 3600 s have passed and it is
   not empty. A committed call never gets it.
   */
  lemma ServedForAnHourExactly(cfg: Config, policy: Http.Policy, sys: System, id: nat, storedAt: int,
                               ms: seq<Move>, m: Move)
    requires id in sys.tasks && sys.tasks[id].status.Storing?
    requires forall i :: 0 <= i < |ms| ==> !ms[i].Store?
    requires m.Begin? && m.call.inputs == sys.tasks[id].call.inputs
    requires m.id !in MovesFrom(cfg, policy, Next(cfg, policy, sys, Store(id, true, storedAt)), ms).tasks
    ensures var s := MovesFrom(cfg, policy, Next(cfg, policy, sys, Store(id, true, storedAt)), ms);
            var status, doc := Next(cfg, policy, s, m).tasks[m.id].status, sys.tasks[id].status.doc;
            && (status == Hit(doc, m.now) <==> status.Hit?)
            && (status.Hit? <==> !m.call.commit && m.redisUp && m.now < storedAt + 3_600_000_000 && doc != map[])
  {
    var stored := Next(cfg, policy, sys, Store(id, true, storedAt));
    StoreWrites(cfg, policy, sys, id, true, storedAt);
    CacheKeptWithoutStores(cfg, policy, stored, ms);
    BeginServed(cfg, policy, MovesFrom(cfg, policy, stored, ms), m);
  }

  // ---- When the remote is reached more than once ----

  /**
   A call whose post is over and was not refused reached the remote more than once if and only if another
   attempt was allowed and its first reply was a 5xx or a transport error.
   */
  lemma ReachedTwiceExactly(cfg: Config, policy: Http.Policy, ms: seq<Move>, id: nat)
    requires policy.limit >= 1 && Monotone(ms) && id in Moves(cfg, policy, ms).http.requests
    requires var stage := Moves(cfg, policy, ms).http.requests[id].stage;
             stage.Ended? && stage != Http.Ended(CircuitOpen)
    ensures var sys := Moves(cfg, policy, ms);
            var replies := RepliesTo(sys.remote, id);
            && replies != [] && sys.http.requests[id].received == replies
            && (Http.Sends(sys.http.requests[id]) >= 2 <==> policy.limit >= 2 && Retryable(replies[0].outcome))
  {
    QuotesAreGenuine(cfg, policy, ms);
    var sys := Moves(cfg, policy, ms);
    assert TaskExplained(sys, id);
    assert Http.ProjectsAt(policy.limit, sys.http, id);
    Http.SentTwiceExactly(policy.limit, sys.http.requests[id], Http.EventsOf(sys.http.history, id));
  }

  ghost predicate NobodySendsTwice(http: Http.System) {
    forall id :: id in http.requests ==> Http.Sends(http.requests[id]) <= 1
  }

  /** Every call of every run reaches the remote at most once if and only if one attempt is all the policy allows. */
  lemma NobodySendsTwiceExactly(cfg: Config, policy: Http.Policy)
    requires policy.limit >= 1
    ensures (forall ms :: Monotone(ms) ==> NobodySendsTwice(Moves(cfg, policy, ms).http)) <==> policy.limit == 1
  {
    if policy.limit == 1 {
      forall ms | Monotone(ms) ensures NobodySendsTwice(Moves(cfg, policy, ms).http) {
        forall id | id in Moves(cfg, policy, ms).http.requests
          ensures Http.Sends(Moves(cfg, policy, ms).http.requests[id]) <= 1
        {
          SendsWithinLimit(cfg, policy, ms, id);
        }
      }
    } else {
      var ms := RetryRun(cfg, policy);
    }
  }

  lemma RetryRun(cfg: Config, policy: Http.Policy) returns (ms: seq<Move>)
    requires policy.limit >= 2
    ensures Monotone(ms) && !NobodySendsTwice(Moves(cfg, policy, ms).http)
  {
    var m0 := Begin(0, TaxCall("", None, true), true, 0);
    var m1 := Receive(0, Response(503), None, 0, 0);
    var m2 := Resume(0, policy.pause(1));
    ms := [m0, m1, m2];
    assert ms[..2] == [m0, m1] && [m0, m1][..1] == [m0] && [m0][..0] == [];
    var s1 := Next(cfg, policy, EMPTY, m0);
    assert Moves(cfg, policy, [m0]) == s1;
    assert s1.http.requests[0] == Http.Request(Http.OnWire(policy.limit), []);
    var s2 := Next(cfg, policy, s1, m1);
    assert Moves(cfg, policy, [m0, m1]) == s2;
    assert |s2.http.requests[0].received| == 1;
    assert s2.http.requests[0].stage == Http.Backoff(policy.limit - 1, policy.pause(1));
    assert Http.Sends(Next(cfg, policy, s2, m2).http.requests[0]) == 2;
  }

  // ---- Concrete runs with the client's own numbers ----

  /** Committed calls that do what the requests of `hs` do. */
  function Posts(call: TaxCall, hs: seq<Http.Move>): seq<Move> {
    if hs == [] then []
    else
      var m := match hs[|hs| - 1]
               case Begin(id, now) => Begin(id, call, true, now)
               case Receive(id, reply, jitter) => Receive(id, reply.outcome, None, jitter, reply.at)
               case Resume(id, now) => Resume(id, now);
      Posts(call, hs[..|hs| - 1]) + [m]
  }

  lemma {:induction false} PostsRunTheRequests(cfg: Config, policy: Http.Policy, call: TaxCall, hs: seq<Http.Move>)
    requires call.commit
    ensures Moves(cfg, policy, Posts(call, hs)).http == Http.Moves(cfg, policy, Http.IDLE, hs)
    ensures Moves(cfg, policy, Posts(call, hs)).tasks.Keys == Http.Moves(cfg, policy, Http.IDLE, hs).requests.Keys
  {
    if hs != [] {
      PostsRunTheRequests(cfg, policy, call, hs[..|hs| - 1]);
      var ms := Posts(call, hs);
      assert ms[..|ms| - 1] == Posts(call, hs[..|hs| - 1]);
      OnePost(cfg, policy, Moves(cfg, policy, ms[..|ms| - 1]), call, hs[|hs| - 1], ms[|ms| - 1]);
    }
  }

  lemma OnePost(cfg: Config, policy: Http.Policy, sys: System, call: TaxCall, h: Http.Move, m: Move)
    requires call.commit && sys.tasks.Keys == sys.http.requests.Keys
    requires m == match h
                  case Begin(id, now) => Begin(id, call, true, now)
                  case Receive(id, reply, jitter) => Receive(id, reply.outcome, None, jitter, reply.at)
                  case Resume(id, now) => Resume(id, now)
    ensures Next(cfg, policy, sys, m).http == Http.Next(cfg, policy, sys.http, h)
    ensures Next(cfg, policy, sys, m).tasks.Keys == Http.Next(cfg, policy, sys.http, h).requests.Keys
  {
  }

  /** Five 503s to two committed calls open the circuit; a third call then fails and the remote never hears of it. */
  lemma OpenCircuitRefusesCommittedCall(call: TaxCall, at: int, later: int)
    requires call.commit && later < at + 66 * MICROS_PER_SECOND
    ensures var run := Posts(call, Http.OpeningRun(at));
            var sys := Moves(CLIENT_CONFIG, Http.CLIENT_POLICY, run);
            var next := Next(CLIENT_CONFIG, Http.CLIENT_POLICY, sys, Begin(2, call, true, later));
            && sys.http.breaker.state.Open? && 2 !in sys.tasks
            && next.tasks[2].status == Failed && Http.Sends(next.http.requests[2]) == 0
            && next.remote == sys.remote
  {
    PostsRunTheRequests(CLIENT_CONFIG, Http.CLIENT_POLICY, call, Http.OpeningRun(at));
    Http.OpeningRunOpens(at);
    assert 2 !in {0, 1};
  }

  /** A call whose attempt meets a 503 with attempts left sends again when its backoff ends, and may be answered then. */
  lemma RetriedCall(cfg: Config, policy: Http.Policy, sys: System, id: nat, doc: Doc, at: int, left: nat)
    requires id in sys.tasks && id in sys.http.requests && left > 1
    requires sys.tasks[id].call.commit && sys.http.requests[id] == Http.Request(Http.OnWire(left), [])
    ensures var resumedAt := at + policy.pause(1);
            var s1 := Next(cfg, policy, sys, Receive(id, Response(503), None, 0, at));
            var s2 := Next(cfg, policy, s1, Resume(id, resumedAt));
            var s3 := Next(cfg, policy, s2, Receive(id, Response(201), Some(doc), 0, resumedAt));
            s3.tasks[id].status == Fresh(doc, resumedAt) && Http.Sends(s3.http.requests[id]) == 2
  {
  }

  /** Concretely: a committed call whose first attempt meets a 503 reaches the remote twice and returns the second answer. */
  lemma CommittedCallReachesRemoteTwice(inputs: Inputs, code: string, doc: Doc, at: nat)
    ensures var cfg, p := CLIENT_CONFIG, Http.CLIENT_POLICY;
            var s0 := Next(cfg, p, EMPTY, Begin(0, TaxCall(inputs, Some(code), true), true, at));
            var s1 := Next(cfg, p, s0, Receive(0, Response(503), None, 0, at));
            var s2 := Next(cfg, p, s1, Resume(0, at + 2 * MICROS_PER_SECOND));
            var s3 := Next(cfg, p, s2, Receive(0, Response(201), Some(doc), 0, at + 2 * MICROS_PER_SECOND));
            && s3.tasks[0].status == Fresh(doc, at + 2 * MICROS_PER_SECOND)
            && Http.Sends(s3.http.requests[0]) == 2
  {
    var cfg, p := CLIENT_CONFIG, Http.CLIENT_POLICY;
    var s0 := Next(cfg, p, EMPTY, Begin(0, TaxCall(inputs, Some(code), true), true, at));
    RetriedCall(cfg, p, s0, 0, doc, at, 3);
  }

  /**
   The key leaves the transaction code out: a second uncommitted call on the same inputs is served the
   first one's answer, code and all, exactly when Redis answers it within the time to live and the
   answer is not empty; otherwise it posts.
   */
  lemma SecondCallGetsFirstAnswer(inputs: Inputs, code0: string, code1: string, doc: Doc, at: nat, up: bool, later: nat)
    ensures var cfg, p := CLIENT_CONFIG, Http.CLIENT_POLICY;
            var c0, c1 := TaxCall(inputs, Some(code0), false), TaxCall(inputs, Some(code1), false);
            var s1 := Next(cfg, p, EMPTY, Begin(0, c0, true, at));
            var s2 := Next(cfg, p, s1, Receive(0, Response(201), Some(doc), 0, at));
            var s3 := Next(cfg, p, s2, Store(0, true, at));
            var s4 := Next(cfg, p, s3, Begin(1, c1, up, later));
            s4.tasks[1].status == (if up && later < at + TTL && doc != map[] then Hit(doc, later) else Posting)
  {
    RunOne(CLIENT_CONFIG, FRESH, Event(Success, at));
  }
}
