/** The table of FRI prover jobs (dal/src/fri_prover_dal.rs). Every method is one SQL statement,
    except the loop over a batch's jobs. */
module FriProverJobs {
  import opened Wrappers

  datatype Status = Queued | InProgress | Successful | Failed | SentToServer | Skipped

  /** The columns under the unique index. */
  datatype JobKey = JobKey(batch: nat, round: nat, circuitId: nat, depth: nat, sequenceNumber: nat)

  datatype Job = Job(key: JobKey, blobUrl: string, protocol: nat, status: Status, attempts: nat)

  /** Rows by id, and the next id of the sequence. An insert that meets a conflict uses up an id. */
  datatype Table = Table(jobs: map<nat, Job>, nextId: nat)

  const EMPTY: Table := Table(map[], 1)

  ghost predicate HasKey(t: Table, key: JobKey) {
    exists id :: id in t.jobs && t.jobs[id].key == key
  }

  /** Ids come from the sequence; the index is unique. */
  ghost predicate Valid(t: Table) {
    && (forall id :: id in t.jobs ==> id < t.nextId)
    && (forall i, j :: i in t.jobs && j in t.jobs && t.jobs[i].key == t.jobs[j].key ==> i == j)
  }

  // ---------------------------------------------------------------- Statements

  /** ON CONFLICT only the time of the last update changes, which is not part of the row here. */
  ghost function Inserted(t: Table, key: JobKey, blobUrl: string, protocol: nat): Table {
    if HasKey(t, key) then t.(nextId := t.nextId + 1)
    else Table(t.jobs[t.nextId := Job(key, blobUrl, protocol, Queued, 0)], t.nextId + 1)
  }

  function SetStatus(t: Table, id: nat, status: Status): Table {
    if id in t.jobs then t.(jobs := t.jobs[id := t.jobs[id].(status := status)]) else t
  }

  function Sent(t: Table, batch: nat): Table {
    t.(jobs := map id | id in t.jobs ::
         if t.jobs[id].key.batch == batch then t.jobs[id].(status := SentToServer) else t.jobs[id])
  }

  function Claimed(t: Table, id: nat): Table
    requires id in t.jobs
  {
    t.(jobs := t.jobs[id := t.jobs[id].(status := InProgress, attempts := t.jobs[id].attempts + 1)])
  }

  /** Which jobs a request may get. */
  datatype Request = AnyJob(protocols: seq<nat>) | OfCircuits(circuits: seq<(nat, nat)>, protocols: seq<nat>)

  predicate Matches(r: Request, job: Job) {
    job.status.Queued? && job.protocol in r.protocols && (r.OfCircuits? ==>
          (job.key.circuitId, job.key.round) in r.circuits)
  }

  /** The orders of the two requests: round descending, batch and id ascending; or batch first. */
  predicate Before(r: Request, a: Job, i: nat, b: Job, j: nat) {
    if r.AnyJob? then
      || a.key.round > b.key.round
      || (a.key.round == b.key.round && (a.key.batch < b.key.batch || (a.key.batch == b.key.batch && i < j)))
    else
      || a.key.batch < b.key.batch
      || (a.key.batch == b.key.batch && (a.key.round > b.key.round || (a.key.round == b.key.round && i < j)))
  }

  /** The answer is the first matching job, or none matches. */
  ghost predicate IsFirst(t: Table, r: Request, answer: Option<nat>) {
    && (answer.Some? ==> answer.value in t.jobs && Matches(r, t.jobs[answer.value]))
    && forall id :: id in t.jobs && Matches(r, t.jobs[id]) ==>
         answer.Some? && (id == answer.value || Before(r, t.jobs[answer.value], answer.value, t.jobs[id], id))
  }

  lemma BeforeIsTransitive(r: Request, a: Job, i: nat, b: Job, j: nat, c: Job, k: nat)
    requires Before(r, a, i, b, j) && Before(r, b, j, c, k)
    ensures Before(r, a, i, c, k)
  {
  }

  lemma BeforeIsTotal(r: Request, a: Job, i: nat, b: Job, j: nat)
    ensures i == j || Before(r, a, i, b, j) || Before(r, b, j, a, i)
  {
  }

  /** ORDER BY and LIMIT 1, over some of the matching jobs. */
  method First(t: Table, r: Request, candidates: set<nat>) returns (answer: Option<nat>)
    requires forall id :: id in candidates ==> id in t.jobs && Matches(r, t.jobs[id])
    ensures answer.Some? ==> answer.value in candidates
    ensures forall id :: id in candidates ==>
              answer.Some? && (id == answer.value || Before(r, t.jobs[answer.value], answer.value, t.jobs[id], id))
  {
    answer := None;
    var rest := candidates;
    while rest != {}
      invariant rest <= candidates
      invariant answer.Some? ==> answer.value in candidates
      invariant forall id :: id in candidates - rest ==>
        answer.Some? && (id == answer.value || Before(r, t.jobs[answer.value], answer.value, t.jobs[id], id))
    {
      var id :| id in rest;
      if answer.None? {
        answer := Some(id);
      } else {
        var best := answer.value;
        BeforeIsTotal(r, t.jobs[best], best, t.jobs[id], id);
        if Before(r, t.jobs[id], id, t.jobs[best], best) {
          forall j | j in candidates - rest && j != best ensures Before(r, t.jobs[id], id, t.jobs[j], j) {
            BeforeIsTransitive(r, t.jobs[id], id, t.jobs[best], best, t.jobs[j], j);
          }
          answer := Some(id);
        }
      }
      rest := rest - {id};
    }
  }

  /** The queued jobs of one circuit and round. */
  function OfTuple(t: Table, r: Request, tuple: (nat, nat)): set<nat> {
    set id | id in t.jobs && Matches(r, t.jobs[id]) && (t.jobs[id].key.circuitId, t.jobs[id].key.round) == tuple
  }

  /** The lateral join: of every requested circuit and round only the first job is looked at. The
      first among these is the first of all. */
  method FirstOfCircuits(t: Table, r: Request) returns (answer: Option<nat>)
    requires r.OfCircuits?
    ensures IsFirst(t, r, answer)
  {
    var firsts: set<nat> := {};
    for c := 0 to |r.circuits|
      invariant forall id :: id in firsts ==> id in t.jobs && Matches(r, t.jobs[id])
      invariant forall id, d :: 0 <= d < c && id in OfTuple(t, r, r.circuits[d]) ==> FirstCovers(t, r, firsts, id)
    {
      var before := firsts;
      var first := First(t, r, OfTuple(t, r, r.circuits[c]));
      if first.Some? {
        firsts := firsts + {first.value};
      }
      CoversMore(t, r, before, firsts);
      forall id | id in OfTuple(t, r, r.circuits[c]) ensures FirstCovers(t, r, firsts, id) {
        assert first.value in firsts;
      }
    }
    answer := First(t, r, firsts);
    forall id | id in t.jobs && Matches(r, t.jobs[id])
      ensures answer.Some? && (id == answer.value || Before(r, t.jobs[answer.value], answer.value, t.jobs[id], id))
    {
      var d :| 0 <= d < |r.circuits| && r.circuits[d] == (t.jobs[id].key.circuitId, t.jobs[id].key.round);
      assert id in OfTuple(t, r, r.circuits[d]);
      assert FirstCovers(t, r, firsts, id);
      var f :| f in firsts && (f == id || (f in t.jobs && Before(r, t.jobs[f], f, t.jobs[id], id)));
      if f != answer.value && f != id {
        BeforeIsTransitive(r, t.jobs[answer.value], answer.value, t.jobs[f], f, t.jobs[id], id);
      }
    }
  }

  ghost predicate FirstCovers(t: Table, r: Request, firsts: set<nat>, id: nat)
    requires id in t.jobs
  {
    exists f :: f in firsts && (f == id || (f in t.jobs && Before(r, t.jobs[f], f, t.jobs[id], id)))
  }

  lemma CoversMore(t: Table, r: Request, firsts: set<nat>, firsts': set<nat>)
    requires firsts <= firsts'
    ensures forall id :: id in t.jobs && FirstCovers(t, r, firsts, id) ==> FirstCovers(t, r, firsts', id)
  {
    forall id | id in t.jobs && FirstCovers(t, r, firsts, id) ensures FirstCovers(t, r, firsts', id) {
      var f :| f in firsts && (f == id || (f in t.jobs && Before(r, t.jobs[f], f, t.jobs[id], id)));
      assert f in firsts';
    }
  }

  // ---------------------------------------------------------------- The object

  datatype Call =
    | Insert(key: JobKey, blobUrl: string, protocol: nat)
    | SaveProof(id: nat)
    | SaveError(id: nat)
    | MarkSent(batch: nat)
    | Get(request: Request)

  /** The id of the job that a request claims; nothing for other statements. */
  datatype Event = Event(call: Call, claimed: Option<nat>)

  ghost predicate Effect(t: Table, e: Event, t': Table) {
    match e.call
    case Insert(key, url, protocol) => e.claimed.None? && t' == Inserted(t, key, url, protocol)
    case SaveProof(id) => e.claimed.None? && t' == SetStatus(t, id, Successful)
    case SaveError(id) => e.claimed.None? && t' == SetStatus(t, id, Failed)
    case MarkSent(batch) => e.claimed.None? && t' == Sent(t, batch)
    case Get(r) => IsFirst(t, r, e.claimed) && t' == if e.claimed.Some? then Claimed(t, e.claimed.value) else t
  }

  /** The statements that change rows by id or batch, row by row; no other row changes. */
  lemma RowsAfter(t: Table, e: Event, t': Table, id: nat)
    requires Effect(t, e, t') && id in t.jobs && !e.call.Insert? && !e.call.Get?
    ensures t'.nextId == t.nextId && t'.jobs.Keys == t.jobs.Keys
    ensures var job := t.jobs[id];
            t'.jobs[id]
            == match e.call
               case SaveProof(i) =>
                 if i == id then Job(job.key, job.blobUrl, job.protocol, Successful, job.attempts) else job
               case SaveError(i) =>
                 if i == id then Job(job.key, job.blobUrl, job.protocol, Failed, job.attempts) else job
               case MarkSent(batch) =>
                 if job.key.batch == batch then Job(job.key, job.blobUrl, job.protocol, SentToServer, job.attempts)
                 else job
               case _ => job
  {
  }

  class FriProverDal {
    var table: Table

    constructor ()
      ensures table == EMPTY == Table(map[], 1) && Valid(table)
    {
      table := EMPTY;
    }

    method InsertProverJob(key: JobKey, blobUrl: string, protocol: nat)
      requires Valid(table)
      modifies this
      ensures Valid(table) && Effect(old(table), Event(Insert(key, blobUrl, protocol), None), table)
      ensures table.nextId == old(table).nextId + 1
      ensures table.jobs
           == if exists id :: id in old(table).jobs && old(table).jobs[id].key == key then old(table).jobs
              else old(table).jobs[old(table).nextId := Job(key, blobUrl, protocol, Queued, 0)]
    {
      var conflict := false;
      var rest := table.jobs.Keys;
      while rest != {}
        invariant rest <= table.jobs.Keys
        invariant conflict <==> exists id :: id in table.jobs.Keys - rest && table.jobs[id].key == key
      {
        var id :| id in rest;
        if table.jobs[id].key == key {
          conflict := true;
        }
        rest := rest - {id};
      }
      var jobs := if conflict then table.jobs else table.jobs[table.nextId := Job(key, blobUrl, protocol, Queued, 0)];
      table := Table(jobs, table.nextId + 1);
    }

    /** `insert_prover_jobs`: one job for every circuit of a round, numbered in order. */
    method InsertProverJobs(batch: nat, circuits: seq<(nat, string)>, round: nat, depth: nat, protocol: nat)
      requires Valid(table)
      modifies this
      ensures Valid(table) && table == InsertedAll(old(table), batch, circuits, round, depth, protocol)
    {
      for i := 0 to |circuits|
        invariant Valid(table) && table == InsertedAll(old(table), batch, circuits[..i], round, depth, protocol)
      {
        TakeNext(circuits, i);
        InsertProverJob(JobKey(batch, round, circuits[i].0, depth, i), circuits[i].1, protocol);
      }
      TakeAll(circuits);
    }

    /** `save_proof`: fails for an unknown id. */
    method SaveProofOf(id: nat) returns (r: Option<JobKey>)
      requires Valid(table)
      modifies this
      ensures Valid(table) && Effect(old(table), Event(SaveProof(id), None), table)
      ensures r == if id in old(table).jobs then Some(old(table).jobs[id].key) else None
    {
      r := if id in table.jobs then Some(table.jobs[id].key) else None;
      table := SetStatus(table, id, Successful);
    }

    method SaveProofError(id: nat)
      requires Valid(table)
      modifies this
      ensures Valid(table) && Effect(old(table), Event(SaveError(id), None), table)
    {
      table := SetStatus(table, id, Failed);
    }

    method MarkProofSentToServer(batch: nat)
      requires Valid(table)
      modifies this
      ensures Valid(table) && Effect(old(table), Event(MarkSent(batch), None), table)
    {
      table := Sent(table, batch);
    }

    /** `get_next_job` and `get_next_job_for_circuit_id_round`. */
    method GetNextJob(r: Request) returns (answer: Option<nat>)
      requires Valid(table)
      modifies this
      ensures Valid(table) && Effect(old(table), Event(Get(r), answer), table)
      ensures answer.None? ==> table == old(table)
      ensures answer.Some? ==>
                && answer.value in old(table).jobs && table.nextId == old(table).nextId
                && var job := old(table).jobs[answer.value];
                   && job.status == Queued && job.protocol in r.protocols
                   && (r.OfCircuits? ==> (job.key.circuitId, job.key.round) in r.circuits)
                   && table.jobs == old(table).jobs[answer.value := Job(job.key, job.blobUrl, job.protocol, InProgress,
                                                                        job.attempts + 1)]
      ensures forall id | id in old(table).jobs :: var other := old(table).jobs[id];
                && other.status == Queued && other.protocol in r.protocols
                && (r.AnyJob? || (other.key.circuitId, other.key.round) in r.circuits)
                ==> answer.Some?
      ensures answer.Some? && r.AnyJob? ==> forall id | id in old(table).jobs ::
                var other, first := old(table).jobs[id], old(table).jobs[answer.value];
                && other.status == Queued && other.protocol in r.protocols
                ==>
                && first.key.round >= other.key.round
                && (first.key.round == other.key.round ==> first.key.batch <= other.key.batch)
                && (first.key.round == other.key.round && first.key.batch == other.key.batch ==> answer.value <= id)
      ensures answer.Some? && r.OfCircuits? ==> forall id | id in old(table).jobs ::
                var other, first := old(table).jobs[id], old(table).jobs[answer.value];
                && other.status == Queued && other.protocol in r.protocols
                && (other.key.circuitId, other.key.round) in r.circuits
                ==>
                && first.key.batch <= other.key.batch
                && (first.key.batch == other.key.batch ==> first.key.round >= other.key.round)
                && (first.key.batch == other.key.batch && first.key.round == other.key.round ==> answer.value <= id)
    {
      if r.AnyJob? {
        answer := First(table, r, set id | id in table.jobs && Matches(r, table.jobs[id]));
      } else {
        answer := FirstOfCircuits(table, r);
      }
      if answer.Some? {
        table := Claimed(table, answer.value);
      }
    }
  }

  ghost function InsertedAll(t: Table, batch: nat, circuits: seq<(nat, string)>, round: nat, depth: nat,
      protocol: nat): Table {
    if circuits == [] then t
    else
      var n := |circuits| - 1;
      Inserted(InsertedAll(t, batch, circuits[..n], round, depth, protocol),
               JobKey(batch, round, circuits[n].0, depth, n), circuits[n].1, protocol)
  }

  lemma InsertedRow(t: Table, key: JobKey, blobUrl: string, protocol: nat)
    requires Valid(t)
    ensures var t' := Inserted(t, key, blobUrl, protocol);
            && Valid(t') && HasKey(t', key)
            && (forall id :: id in t.jobs ==> id in t'.jobs && t'.jobs[id] == t.jobs[id])
            && forall id :: id in t'.jobs && id !in t.jobs ==> t'.jobs[id] == Job(key, blobUrl, protocol, Queued, 0)
  {
    if !HasKey(t, key) {
      assert Inserted(t, key, blobUrl, protocol).jobs[t.nextId].key == key;
    }
  }

  lemma KeyStays(t: Table, t': Table, key: JobKey)
    requires HasKey(t, key) && forall id :: id in t.jobs ==> id in t'.jobs && t'.jobs[id] == t.jobs[id]
    ensures HasKey(t', key)
  {
    var id :| id in t.jobs && t.jobs[id].key == key;
    assert id in t'.jobs;
  }

  lemma AllNext(t: Table, batch: nat, circuits: seq<(nat, string)>, round: nat, depth: nat, protocol: nat)
    requires circuits != []
    ensures var n := |circuits| - 1;
            InsertedAll(t, batch, circuits, round, depth, protocol)
            == Inserted(InsertedAll(t, batch, circuits[..n], round, depth, protocol),
                        JobKey(batch, round, circuits[n].0, depth, n), circuits[n].1, protocol)
  {
  }

  /** Inserting the jobs of a round leaves the rows that were there as they are. */
  lemma {:induction false} RoundKeepsRows(t: Table, batch: nat, circuits: seq<(nat, string)>, round: nat, depth: nat,
      protocol: nat)
    requires Valid(t)
    ensures var t' := InsertedAll(t, batch, circuits, round, depth, protocol);
            Valid(t') && forall id :: id in t.jobs ==> id in t'.jobs && t'.jobs[id] == t.jobs[id]
  {
    if circuits != [] {
      var n := |circuits| - 1;
      RoundKeepsRows(t, batch, circuits[..n], round, depth, protocol);
      AllNext(t, batch, circuits, round, depth, protocol);
      InsertedRow(InsertedAll(t, batch, circuits[..n], round, depth, protocol),
                  JobKey(batch, round, circuits[n].0, depth, n), circuits[n].1, protocol);
      hide *;
    }
  }

  /** Afterwards every circuit has a job, with its place in the list as sequence number. */
  lemma {:induction false} RoundHasJobs(t: Table, batch: nat, circuits: seq<(nat, string)>, round: nat, depth: nat,
      protocol: nat, i: nat)
    requires Valid(t) && i < |circuits|
    ensures HasKey(InsertedAll(t, batch, circuits, round, depth, protocol),
                   JobKey(batch, round, circuits[i].0, depth, i))
  {
    var n := |circuits| - 1;
    var before := InsertedAll(t, batch, circuits[..n], round, depth, protocol);
    RoundKeepsRows(t, batch, circuits[..n], round, depth, protocol);
    AllNext(t, batch, circuits, round, depth, protocol);
    InsertedRow(before, JobKey(batch, round, circuits[n].0, depth, n), circuits[n].1, protocol);
    hide *;
    if i < n {
      RoundHasJobs(t, batch, circuits[..n], round, depth, protocol, i);
      KeyStays(before, InsertedAll(t, batch, circuits, round, depth, protocol),
               JobKey(batch, round, circuits[i].0, depth, i));
    }
  }

  /** Every row that is new is the queued job of one of the circuits, with its data. */
  lemma {:induction false} RoundAddsJobs(t: Table, batch: nat, circuits: seq<(nat, string)>, round: nat, depth: nat,
      protocol: nat, id: nat)
    requires Valid(t) && id !in t.jobs && id in InsertedAll(t, batch, circuits, round, depth, protocol).jobs
    ensures exists i :: 0 <= i < |circuits| && InsertedAll(t, batch, circuits, round, depth, protocol).jobs[id]
              == Job(JobKey(batch, round, circuits[i].0, depth, i), circuits[i].1, protocol, Queued, 0)
  {
    if circuits != [] {
      var n := |circuits| - 1;
      var before := InsertedAll(t, batch, circuits[..n], round, depth, protocol);
      RoundKeepsRows(t, batch, circuits[..n], round, depth, protocol);
      AllNext(t, batch, circuits, round, depth, protocol);
      InsertedRow(before, JobKey(batch, round, circuits[n].0, depth, n), circuits[n].1, protocol);
      hide *;
      if id in before.jobs {
        RoundAddsJobs(t, batch, circuits[..n], round, depth, protocol, id);
        var i :| 0 <= i < n && before.jobs[id]
          == Job(JobKey(batch, round, circuits[..n][i].0, depth, i), circuits[..n][i].1, protocol, Queued, 0);
        assert circuits[..n][i] == circuits[i];
      }
    }
  }

  /** Inserting the jobs of a round again adds none and requeues none, whatever happened to them. */
  lemma {:induction false} InsertedAgain(t: Table, batch: nat, circuits: seq<(nat, string)>, round: nat, depth: nat,
      protocol: nat)
    requires forall i :: 0 <= i < |circuits| ==> HasKey(t, JobKey(batch, round, circuits[i].0, depth, i))
    ensures InsertedAll(t, batch, circuits, round, depth, protocol).jobs == t.jobs
  {
    if circuits != [] {
      var n := |circuits| - 1;
      InsertedAgain(t, batch, circuits[..n], round, depth, protocol);
      assert HasKey(t, JobKey(batch, round, circuits[n].0, depth, n));
    }
  }

  // ---------------------------------------------------------------- Runs

  ghost predicate EffectAt(states: seq<Table>, events: seq<Event>, i: nat)
    requires |states| == |events| + 1 && i < |events|
  {
    Effect(states[i], events[i], states[i + 1])
  }

  /** Statements of any number of provers, in the order in which they take effect. */
  ghost predicate IsRun(states: seq<Table>, events: seq<Event>) {
    && |states| == |events| + 1 && states[0] == EMPTY
    && forall i: nat :: i < |events| ==> EffectAt(states, events, i)
  }

  function ClaimsOf(events: seq<Event>, id: nat): nat {
    if events == [] then 0
    else ClaimsOf(events[..|events| - 1], id) + (if events[|events| - 1].claimed == Some(id) then 1 else 0)
  }

  /** A queued job has not been claimed; any job at most once; `attempts` counts the claims. */
  ghost predicate ClaimsRight(t: Table, events: seq<Event>, id: nat) {
    && ClaimsOf(events, id) <= 1
    && (id in t.jobs ==> t.jobs[id].attempts == ClaimsOf(events, id))
    && (id !in t.jobs || t.jobs[id].status.Queued? ==> ClaimsOf(events, id) == 0)
  }

  lemma {:induction false} ValidStep(t: Table, e: Event, t': Table)
    requires Valid(t) && Effect(t, e, t')
    ensures Valid(t')
  {
  }

  lemma {:induction false} ClaimsStep(t: Table, events: seq<Event>, e: Event, t': Table, id: nat)
    requires Valid(t) && Effect(t, e, t') && ClaimsRight(t, events, id)
    ensures ClaimsRight(t', events + [e], id)
  {
    assert (events + [e])[..|events|] == events;
  }

  /** In every run each job is claimed at most once, the index stays unique, and the attempts in a
      row count its claims. */
  lemma {:induction false} ClaimedAtMostOnce(states: seq<Table>, events: seq<Event>, n: nat, id: nat)
    requires IsRun(states, events) && n <= |events|
    ensures Valid(states[n]) && ClaimsRight(states[n], events[..n], id)
  {
    if n > 0 {
      ClaimedAtMostOnce(states, events, n - 1, id);
      assert EffectAt(states, events, n - 1);
      ValidStep(states[n - 1], events[n - 1], states[n]);
      ClaimsStep(states[n - 1], events[..n - 1], events[n - 1], states[n], id);
      TakeNext(events, n - 1);
    }
  }

  lemma {:induction false} ClaimCounts(events: seq<Event>, i: nat, id: nat)
    requires i < |events| && events[i].claimed == Some(id)
    ensures ClaimsOf(events, id) >= 1
  {
    if i < |events| - 1 {
      ClaimCounts(events[..|events| - 1], i, id);
    }
  }

  /** Two claims never get the same job. */
  lemma {:induction false} ClaimsDiffer(states: seq<Table>, events: seq<Event>, i: nat, j: nat)
    requires IsRun(states, events) && i < j < |events| && events[i].claimed.Some?
    ensures events[j].claimed != events[i].claimed
  {
    var id := events[i].claimed.value;
    ClaimedAtMostOnce(states, events, j, id);
    ClaimCounts(events[..j], i, id);
    assert EffectAt(states, events, j);
  }

  ghost predicate InsertedBefore(events: seq<Event>, key: JobKey, n: nat)
    requires n <= |events|
  {
    exists i: nat :: i < n && events[i].call.Insert? && events[i].call.key == key
  }

  lemma {:induction false} KeysStep(t: Table, e: Event, t': Table, key: JobKey)
    requires Valid(t) && Effect(t, e, t')
    ensures HasKey(t', key) <==> HasKey(t, key) || (e.call.Insert? && e.call.key == key)
  {
    if HasKey(t, key) {
      var id :| id in t.jobs && t.jobs[id].key == key;
      assert id in t'.jobs && t'.jobs[id].key == key;
    }
    if HasKey(t', key) {
      var id :| id in t'.jobs && t'.jobs[id].key == key;
      assert id in t.jobs ==> t.jobs[id].key == key;
    }
    if e.call.Insert? && e.call.key == key && !HasKey(t, key) {
      assert t.nextId in t'.jobs && t'.jobs[t.nextId].key == key;
    }
  }

  /** The table has exactly the jobs that were inserted. */
  lemma {:induction false} KnownIffInserted(states: seq<Table>, events: seq<Event>, key: JobKey, n: nat)
    requires IsRun(states, events) && n <= |events|
    ensures HasKey(states[n], key) <==> InsertedBefore(events, key, n)
  {
    if n > 0 {
      KnownIffInserted(states, events, key, n - 1);
      ClaimedAtMostOnce(states, events, n - 1, 0);
      assert EffectAt(states, events, n - 1);
      KeysStep(states[n - 1], events[n - 1], states[n], key);
      if InsertedBefore(events, key, n - 1) {
        var i: nat :| i < n - 1 && events[i].call.Insert? && events[i].call.key == key;
        assert i < n;
      }
    }
  }

  /** A job keeps its id, its columns under the index, its data and its protocol; once it has left
      the queue it never returns to it. */
  lemma {:induction false} NeverRequeued(states: seq<Table>, events: seq<Event>, id: nat, i: nat, j: nat)
    requires IsRun(states, events) && i <= j <= |events| && id in states[i].jobs
    ensures id in states[j].jobs
    ensures var before, after := states[i].jobs[id], states[j].jobs[id];
            && after == before.(status := after.status, attempts := after.attempts)
            && (after.status.Queued? ==> before.status.Queued?)
    decreases j
  {
    if i < j {
      NeverRequeued(states, events, id, i, j - 1);
      ClaimedAtMostOnce(states, events, j - 1, id);
      assert EffectAt(states, events, j - 1);
    }
  }

  /** The status that a statement reports for a job. */
  function Verdict(e: Event, id: nat, job: Job): (s: Option<Status>)
    ensures e.call == SaveProof(id) ==> s == Some(Successful)
    ensures e.call == SaveError(id) ==> s == Some(Failed)
    ensures e.call == MarkSent(job.key.batch) ==> s == Some(SentToServer)
    ensures s.Some? ==> !e.call.Insert? && !e.call.Get?
  {
    match e.call
    case SaveProof(i) => if i == id then Some(Successful) else None
    case SaveError(i) => if i == id then Some(Failed) else None
    case MarkSent(batch) => if batch == job.key.batch then Some(SentToServer) else None
    case _ => None
  }

  /** The last report on a job decides its status, whatever happens to other jobs and batches. */
  lemma {:induction false} LastVerdictStands(states: seq<Table>, events: seq<Event>, id: nat, i: nat, j: nat)
    requires IsRun(states, events) && i < j <= |events| && id in states[i].jobs
    requires Verdict(events[i], id, states[i].jobs[id]).Some?
    requires forall n: nat :: i < n < j ==> Verdict(events[n], id, states[i].jobs[id]).None?
    ensures id in states[j].jobs && states[j].jobs[id].status == Verdict(events[i], id, states[i].jobs[id]).value
    decreases j
  {
    ClaimedAtMostOnce(states, events, j - 1, id);
    assert EffectAt(states, events, j - 1);
    if i < j - 1 {
      LastVerdictStands(states, events, id, i, j - 1);
      NeverRequeued(states, events, id, i, j - 1);
      assert Verdict(events[j - 1], id, states[i].jobs[id]).None?;
    }
  }
}
